/**
 Compressing and expanding stream state: the three forms of
 src/stream_compress_impl.h that src/stream_compress.c instantiates, and
 hs_compress_stream on top of them.
 */
module StreamCompress {
  import opened Common
  import opened MultibitCodec
  import opened StreamPlan
  import opened StreamFields

  const OFFSET_FIELD := 8

  /** struct hs_stream and the state that follows it in memory. */
  class Stream {
    var offset: nat
    const body: array<Byte>

    constructor (size: nat)
      ensures fresh(body) && body.Length == size && offset == 0
    {
      offset := 0;
      body := new Byte[size];
    }
  }

  // ----- the offset field

  function StoreLE(n: nat, width: nat): (s: Memory)
    ensures |s| == width
  {
    if width == 0 then [] else [n % 256] + StoreLE(n / 256, width - 1)
  }

  function LoadLE(s: Memory): nat {
    if s == [] then 0 else s[0] + 256 * LoadLE(s[1..])
  }

  function Pow256(k: nat): nat { if k == 0 then 1 else 256 * Pow256(k - 1) }

  lemma {:induction false} LoadStore(n: nat, width: nat)
    requires n < Pow256(width)
    ensures LoadLE(StoreLE(n, width)) == n
  {
    if width > 0 {
      assert n / 256 < Pow256(width - 1);
      LoadStore(n / 256, width - 1);
      assert StoreLE(n, width)[1..] == StoreLE(n / 256, width - 1);
    }
  }

  /** The compressed form of a stream. */
  function StreamImage(l: Layout, m: Memory, offset: nat): Memory
    requires Fits(m, l.Plan(m, offset))
  {
    StoreLE(offset, OFFSET_FIELD) + Image(m, l.Plan(m, offset))
  }

  /** How much of its buffer sc_expand asks for before it succeeds. */
  function Demanded(l: Layout, m: Memory, offset: nat): nat
    requires Fits(m, l.Plan(m, offset))
  {
    Max(OFFSET_FIELD, Need(m, l.Plan(m, offset), OFFSET_FIELD))
  }

  // ----- what a buffer holds

  predicate Holds(buf: Memory, at: nat, data: Memory) {
    at + |data| <= |buf| && buf[at..at + |data|] == data
  }

  lemma HoldsParts(buf: Memory, at: nat, a: Memory, b: Memory)
    requires Holds(buf, at, a + b)
    ensures Holds(buf, at, a) && Holds(buf, at + |a|, b)
  {
    SliceOfSlice(buf, at, |a + b|, 0, |a|);
    SliceOfSlice(buf, at, |a + b|, |a|, |a + b|);
    assert (a + b)[0..|a|] == a && (a + b)[|a|..|a + b|] == b;
  }

  // ----- size

  method SizeSteps(m: Memory, steps: seq<Step>, cur: nat) returns (c: nat)
    requires Fits(m, steps)
    ensures c == cur + |Image(m, steps)|
  {
    hide StepBytes;
    c := cur;
    for i := 0 to |steps|
      invariant c + |Image(m, steps[i..])| == cur + |Image(m, steps)|
    {
      var sz := StepSize(m, steps[i]);
      assert steps[i..][1..] == steps[i + 1..];
      c := c + sz;
    }
  }

  method StepSize(m: Memory, s: Step) returns (sz: nat)
    requires StepFits(m, s)
    ensures sz == |StepBytes(m, s)|
  {
    match s {
      case Raw(r) => sz := r.len;
      case Bits(mb) => sz := CompSize(m, mb);
    }
  }

  method SizeEntries(l: Layout, m: Memory, t: Table, cur: nat) returns (c: nat)
    requires Fits(m, l.Entries(m, t, 0))
    ensures c == cur + |Image(m, l.Entries(m, t, 0))|
  {
    hide Next, Image, Fits, Layout.Entry, Layout.Kept, Layout.Mask;
    c := cur;
    var from := 0;
    while true
      invariant Fits(m, l.Entries(m, t, from))
      invariant c + |Image(m, l.Entries(m, t, from))| == cur + |Image(m, l.Entries(m, t, 0))|
      decreases l.Mask(t).total - from
    {
      var n := Next(m, l.Mask(t), from);
      if n >= l.Mask(t).total || from >= l.Mask(t).total {
        NoImage(m);
        break;
      }
      NextEntry(l, m, t, from);
      TwoParts(m, if l.Kept(t, n) then l.Entry(t, n) else [], l.Entries(m, t, n + 1));
      if l.Kept(t, n) {
        c := SizeSteps(m, l.Entry(t, n), c);
      }
      from := n + 1;
    }
  }

  lemma NoImage(m: Memory)
    ensures Fits(m, []) && Image(m, []) == [] && AllLive(m, []) == {}
  {
  }

  lemma {:induction false} NextEntry(l: Layout, m: Memory, t: Table, from: nat)
    requires from < l.Mask(t).total && Next(m, l.Mask(t), from) < l.Mask(t).total
    requires Fits(m, l.Entries(m, t, from))
    ensures var n := Next(m, l.Mask(t), from);
            l.Entries(m, t, from) == (if l.Kept(t, n) then l.Entry(t, n) else []) + l.Entries(m, t, n + 1)
  {
    hide Next, Layout.Entry, Layout.Kept, Layout.Mask;
  }

  /** A run of steps in two parts. */
  lemma {:induction false} TwoParts(m: Memory, a: seq<Step>, b: seq<Step>)
    requires Fits(m, a + b)
    ensures Fits(m, a) && Fits(m, b) && Image(m, a + b) == Image(m, a) + Image(m, b)
    ensures Image(m, []) == []
  {
    FitsParts(m, a, b);
    ImageOfTwo(m, a, b);
  }

  /** size_compress_stream. */
  method Size(l: Layout, s: Stream) returns (sz: nat)
    requires Fits(s.body[..], l.Plan(s.body[..], s.offset))
    ensures sz == |StreamImage(l, s.body[..], s.offset)|
  {
    hide Image, Fits, Layout.Entries, Layout.Fixed, AllLive;
    var m := s.body[..];
    TwoParts(m, l.Fixed(s.offset), l.AfterFixed(m));
    TwoParts(m, l.Entries(m, Leaf, 0), l.AfterLeaf(m));
    TwoParts(m, l.LeftSteps(m), l.AfterLeft(m));
    TwoParts(m, l.SomMasks(), l.SomSteps(m));
    var c := OFFSET_FIELD;
    c := SizeSteps(m, l.Fixed(s.offset), c);
    c := SizeEntries(l, m, Leaf, c);
    if l.hasLeft {
      c := SizeEntries(l, m, Left, c);
    }
    if l.hasSom {
      c := SizeSteps(m, l.SomMasks(), c);
      c := SizeEntries(l, m, Som, c);
    }
    return c;
  }

  // ----- compress

  method CompressSteps(m: Memory, steps: seq<Step>, buf: array<Byte>, cur: nat, size: nat) returns (c: nat)
    requires Fits(m, steps) && cur + |Image(m, steps)| <= size <= buf.Length
    modifies buf
    ensures c == cur + |Image(m, steps)|
    ensures buf[..] == Splice(old(buf[..]), cur, Image(m, steps))
  {
    hide StepBytes, StepFits, Splice;
    c := cur;
    ghost var was := buf[..];
    EmptySplice(was, cur);
    for i := 0 to |steps|
      invariant Fits(m, steps[..i]) && Fits(m, steps[i..])
      invariant Image(m, steps) == Image(m, steps[..i]) + Image(m, steps[i..])
      invariant c == cur + |Image(m, steps[..i])| && buf[..] == Splice(was, cur, Image(m, steps[..i]))
    {
      ghost var done, bytes := Image(m, steps[..i]), StepBytes(m, steps[i]);
      OneMoreStep(m, steps, i);
      SpliceNext(was, cur, done, bytes);
      c := CompressStep(m, steps[i], buf, c, size);
    }
    assert steps[..|steps|] == steps;
  }

  lemma {:induction false} OneMoreStep(m: Memory, steps: seq<Step>, i: nat)
    requires Fits(m, steps) && i < |steps|
    ensures Fits(m, steps[..i]) && Fits(m, steps[i..]) && Fits(m, steps[..i + 1]) && Fits(m, steps[i + 1..])
    ensures Image(m, steps[..i + 1]) == Image(m, steps[..i]) + StepBytes(m, steps[i])
    ensures Image(m, steps[i..]) == StepBytes(m, steps[i]) + Image(m, steps[i + 1..])
  {
    hide StepBytes, StepFits;
    assert steps[i..][1..] == steps[i + 1..];
    assert steps[..i + 1] == steps[..i] + [steps[i]];
    ImageOfTwo(m, steps[..i], [steps[i]]);
    assert Image(m, [steps[i]]) == StepBytes(m, steps[i]) + Image(m, []);
  }

  method CompressStep(m: Memory, s: Step, buf: array<Byte>, cur: nat, size: nat) returns (c: nat)
    requires StepFits(m, s) && cur + |StepBytes(m, s)| <= size <= buf.Length
    modifies buf
    ensures c == cur + |StepBytes(m, s)|
    ensures buf[..] == Splice(old(buf[..]), cur, StepBytes(m, s))
  {
    match s {
      case Raw(r) =>
        Store(buf, cur, m[r.at..r.at + r.len]);
        c := cur + r.len;
      case Bits(mb) =>
        var ok, sz := Compress(m, mb, buf, cur, size - cur);
        c := cur + sz;
    }
  }

  method CompressEntries(l: Layout, m: Memory, t: Table, buf: array<Byte>, cur: nat, size: nat) returns (c: nat)
    requires Fits(m, l.Entries(m, t, 0)) && cur + |Image(m, l.Entries(m, t, 0))| <= size <= buf.Length
    modifies buf
    ensures c == cur + |Image(m, l.Entries(m, t, 0))|
    ensures buf[..] == Splice(old(buf[..]), cur, Image(m, l.Entries(m, t, 0)))
  {
    hide Next, Image, Fits, Splice, Layout.Entry, Layout.Kept, Layout.Mask;
    c := cur;
    var from := 0;
    ghost var was, done, all := buf[..], [], Image(m, l.Entries(m, t, 0));
    EmptySplice(was, cur);
    while true
      invariant Fits(m, l.Entries(m, t, from))
      invariant all == done + Image(m, l.Entries(m, t, from))
      invariant c == cur + |done| && buf[..] == Splice(was, cur, done)
      decreases l.Mask(t).total - from
    {
      var n := Next(m, l.Mask(t), from);
      if n >= l.Mask(t).total || from >= l.Mask(t).total {
        NoImage(m);
        assert done == all;
        break;
      }
      NextEntry(l, m, t, from);
      TwoParts(m, if l.Kept(t, n) then l.Entry(t, n) else [], l.Entries(m, t, n + 1));
      if l.Kept(t, n) {
        NextBytes(was, cur, done, Image(m, l.Entry(t, n)), Image(m, l.Entries(m, t, n + 1)));
        c := CompressSteps(m, l.Entry(t, n), buf, c, size);
        done := done + Image(m, l.Entry(t, n));
      }
      from := n + 1;
    }
  }

  /** compress_stream; its caller has asked for the size first. */
  method CompressStream(l: Layout, s: Stream, buf: array<Byte>, size: nat) returns (c: nat)
    requires Fits(s.body[..], l.Plan(s.body[..], s.offset)) && buf != s.body
    requires |StreamImage(l, s.body[..], s.offset)| <= size <= buf.Length
    modifies buf
    ensures c == |StreamImage(l, s.body[..], s.offset)|
    ensures buf[..] == Splice(old(buf[..]), 0, StreamImage(l, s.body[..], s.offset))
  {
    hide Image, Fits, Layout.Entries, Layout.Fixed, AllLive, Splice, StoreLE;
    var m := s.body[..];
    TwoParts(m, l.Fixed(s.offset), l.AfterFixed(m));
    TwoParts(m, l.Entries(m, Leaf, 0), l.AfterLeaf(m));
    TwoParts(m, l.LeftSteps(m), l.AfterLeft(m));
    TwoParts(m, l.SomMasks(), l.SomSteps(m));
    ghost var was := buf[..];
    ghost var z, f, a := StoreLE(s.offset, OFFSET_FIELD), Image(m, l.Fixed(s.offset)), Image(m, l.Entries(m, Leaf, 0));
    ghost var b, d, e := Image(m, l.LeftSteps(m)), Image(m, l.SomMasks()), Image(m, l.SomSteps(m));
    assert StreamImage(l, m, s.offset) == z + (f + (a + (b + (d + e))));
    hide StreamImage, Layout.LeftSteps, Layout.SomMasks, Layout.SomSteps, Layout.Plan;
    Store(buf, 0, StoreLE(s.offset, OFFSET_FIELD));
    NextBytes(was, 0, z, f, a + (b + (d + e)));
    c := CompressSteps(m, l.Fixed(s.offset), buf, OFFSET_FIELD, size);
    NextBytes(was, 0, z + f, a, b + (d + e));
    c := CompressEntries(l, m, Leaf, buf, c, size);
    NextBytes(was, 0, z + f + a, b, d + e);
    c := CompressLeftfixes(l, m, buf, c, size);
    NextBytes(was, 0, z + f + a + b, d, e);
    c := CompressSteps(m, l.SomMasks(), buf, c, size);
    NextBytes(was, 0, z + f + a + b + d, e, []);
    c := CompressSomSlots(l, m, buf, c, size);
  }

  /** sc_left_compress: nothing for an engine without leftfixes. */
  method CompressLeftfixes(l: Layout, m: Memory, buf: array<Byte>, cur: nat, size: nat) returns (c: nat)
    requires Fits(m, l.LeftSteps(m)) && cur + |Image(m, l.LeftSteps(m))| <= size <= buf.Length
    modifies buf
    ensures c == cur + |Image(m, l.LeftSteps(m))|
    ensures buf[..] == Splice(old(buf[..]), cur, Image(m, l.LeftSteps(m)))
  {
    hide Fits, Image, Layout.Entries, Splice;
    NoImage(m);
    EmptySplice(buf[..], cur);
    c := cur;
    if l.hasLeft {
      c := CompressEntries(l, m, Left, buf, c, size);
    }
  }

  /** The slots of sc_som_compress: nothing for an engine without SOM. */
  method CompressSomSlots(l: Layout, m: Memory, buf: array<Byte>, cur: nat, size: nat) returns (c: nat)
    requires Fits(m, l.SomSteps(m)) && cur + |Image(m, l.SomSteps(m))| <= size <= buf.Length
    modifies buf
    ensures c == cur + |Image(m, l.SomSteps(m))|
    ensures buf[..] == Splice(old(buf[..]), cur, Image(m, l.SomSteps(m)))
  {
    hide Fits, Image, Layout.Entries, Splice;
    NoImage(m);
    EmptySplice(buf[..], cur);
    c := cur;
    if l.hasSom {
      c := CompressEntries(l, m, Som, buf, c, size);
    }
  }

  /** The next bytes of a form, after what has been written of it. */
  lemma NextBytes(was: Memory, at: nat, done: Memory, part: Memory, rest: Memory)
    requires at + |done| + |part| <= |was|
    ensures Splice(Splice(was, at, done), at + |done|, part) == Splice(was, at, done + part)
    ensures done + (part + rest) == (done + part) + rest
  {
    SpliceNext(was, at, done, part);
  }

  /** hs_compress_stream. */
  method HsCompressStream(l: Layout, s: Stream, buf: array<Byte>, space: nat) returns (err: int, used: nat)
    requires Fits(s.body[..], l.Plan(s.body[..], s.offset)) && buf != s.body && space <= buf.Length
    modifies buf
    ensures used == |StreamImage(l, s.body[..], s.offset)|
    ensures err == if space < used then HS_INSUFFICIENT_SPACE else HS_SUCCESS
    ensures err == HS_SUCCESS ==> buf[..] == Splice(old(buf[..]), 0, StreamImage(l, s.body[..], s.offset))
    ensures err != HS_SUCCESS ==> buf[..] == old(buf[..])
  {
    hide StreamImage, Fits, Splice;
    used := Size(l, s);
    if space < used {
      return HS_INSUFFICIENT_SPACE, used;
    }
    var c := CompressStream(l, s, buf, used);
    err := HS_SUCCESS;
  }

  // ----- expand

  /** The next part of a run of steps, as sc_expand meets it at `cur`. */
  lemma {:induction false} NextPart(m: Memory, a: seq<Step>, b: seq<Step>, buf: Memory, cur: nat, end: nat)
    requires Fits(m, a + b) && Holds(buf, cur, Image(m, a + b))
    ensures Fits(m, a) && Fits(m, b) && Image(m, a + b) == Image(m, a) + Image(m, b)
    ensures Holds(buf, cur, Image(m, a)) && Holds(buf, cur + |Image(m, a)|, Image(m, b))
    ensures AllLive(m, a + b) == AllLive(m, a) + AllLive(m, b)
    ensures Need(m, a + b, cur) <= end <==> Need(m, a, cur) <= end && Need(m, b, cur + |Image(m, a)|) <= end
    ensures Written(m, a + b, cur, end) ==
            Written(m, a, cur, end) +
            (if Need(m, a, cur) <= end then Written(m, b, cur + |Image(m, a)|, end) else {})
  {
    hide Fits, Image, Holds, AllLive, Need, Written;
    FitsParts(m, a, b);
    WrittenOfTwo(m, a, b, cur, end);
    ImageOfTwo(m, a, b);
    NeedOfTwo(m, a, b, cur);
    HoldsParts(buf, cur, Image(m, a), Image(m, b));
  }

  method ExpandStep(s: Step, body: array<Byte>, buf: Memory, cur: nat, end: nat,
                    ghost t0: Memory, ghost src: Memory, ghost live: set<nat>) returns (ok: bool, c: nat)
    requires StepFits(src, s) && Holds(buf, cur, StepBytes(src, s)) && Restored(t0, body[..], src, live)
    modifies body
    ensures ok <==> !StepFails(src, s, cur, end)
    ensures ok ==> c == cur + |StepBytes(src, s)|
    ensures Restored(t0, body[..], src, live + StepWritten(src, s, cur, end))
  {
    hide WellFormed, Encoded, Live, Checked, Splice, Restored, Overwritten;
    SameLength(t0, body[..], src, live);
    match s {
      case Raw(r) =>
        if cur + r.len > end {
          assert live + {} == live;
          return false, 0;
        }
        SpliceRestores(t0, body[..], src, live, r.at, r.len);
        Store(body, r.at, buf[cur..cur + r.len]);
        return true, cur + r.len;
      case Bits(mb) =>
        ghost var t := body[..];
        var done, sz := Decompress(body, mb, buf, cur, end, src);
        RestoredTwice(t0, t, body[..], src, live, Overwritten(src, mb, cur, end));
        if !done {
          return false, 0;
        }
        return true, cur + sz;
    }
  }

  lemma RestoredTwice(t0: Memory, t: Memory, u: Memory, src: Memory, a: set<nat>, b: set<nat>)
    requires Restored(t0, t, src, a) && Restored(t, u, src, b)
    ensures Restored(t0, u, src, a + b)
  {
  }

  method ExpandSteps(steps: seq<Step>, body: array<Byte>, buf: Memory, cur: nat, end: nat,
                     ghost t0: Memory, ghost src: Memory, ghost live: set<nat>) returns (ok: bool, c: nat)
    requires Fits(src, steps) && Holds(buf, cur, Image(src, steps)) && Restored(t0, body[..], src, live)
    modifies body
    ensures ok <==> Need(src, steps, cur) <= end
    ensures ok ==> c == cur + |Image(src, steps)|
    ensures Restored(t0, body[..], src, live + Written(src, steps, cur, end))
  {
    hide StepBytes, StepFits, StepWritten, StepChecked, Restored, Holds;
    c := cur;
    ghost var got := live;
    for i := 0 to |steps|
      invariant c + |Image(src, steps[i..])| == cur + |Image(src, steps)|
      invariant Holds(buf, c, Image(src, steps[i..]))
      invariant Need(src, steps, cur) <= end <==> Need(src, steps[i..], c) <= end
      invariant live + Written(src, steps, cur, end) == got + Written(src, steps[i..], c, end)
      invariant Restored(t0, body[..], src, got)
    {
      assert steps[i..][1..] == steps[i + 1..];
      HoldsParts(buf, c, StepBytes(src, steps[i]), Image(src, steps[i + 1..]));
      ghost var more := StepWritten(src, steps[i], c, end);
      var done, d := ExpandStep(steps[i], body, buf, c, end, t0, src, got);
      got := got + more;
      if !done {
        assert got == live + Written(src, steps, cur, end);
        return false, 0;
      }
      c := d;
    }
    assert got == live + Written(src, steps, cur, end);
    ok := true;
  }

  method ExpandEntries(l: Layout, t: Table, body: array<Byte>, buf: Memory, cur: nat, end: nat,
                       ghost t0: Memory, ghost src: Memory, ghost live: set<nat>) returns (ok: bool, c: nat)
    requires WellFormed(src, l.Mask(t)) && Live(src, l.Mask(t)) <= live && Restored(t0, body[..], src, live)
    requires Fits(src, l.Entries(src, t, 0)) && Holds(buf, cur, Image(src, l.Entries(src, t, 0)))
    modifies body
    ensures ok <==> Need(src, l.Entries(src, t, 0), cur) <= end
    ensures ok ==> c == cur + |Image(src, l.Entries(src, t, 0))|
    ensures Restored(t0, body[..], src, live + Written(src, l.Entries(src, t, 0), cur, end))
  {
    hide WellFormed, Live, Restored, Fits, Image, Holds, Need, AllLive, Written, Next, Layout.Entry, Layout.Kept,
         Layout.Mask;
    c := cur;
    ghost var got, all := live, l.Entries(src, t, 0);
    var from := 0;
    while true
      invariant live <= got && Fits(src, l.Entries(src, t, from))
      invariant c + |Image(src, l.Entries(src, t, from))| == cur + |Image(src, all)|
      invariant Holds(buf, c, Image(src, l.Entries(src, t, from)))
      invariant Need(src, all, cur) <= end <==> Need(src, l.Entries(src, t, from), c) <= end
      invariant live + Written(src, all, cur, end) == got + Written(src, l.Entries(src, t, from), c, end)
      invariant Restored(t0, body[..], src, got)
      decreases l.Mask(t).total - from
    {
      SameNext(t0, body[..], src, got, l.Mask(t), from);
      var n := Next(body[..], l.Mask(t), from);
      if n >= l.Mask(t).total || from >= l.Mask(t).total {
        NothingLeft(src, c, end);
        break;
      }
      NextEntry(l, src, t, from);
      ghost var here := if l.Kept(t, n) then l.Entry(t, n) else [];
      NextPart(src, here, l.Entries(src, t, n + 1), buf, c, end);
      NothingLeft(src, c, end);
      ghost var more := Written(src, here, c, end);
      if l.Kept(t, n) {
        var done, d := ExpandSteps(l.Entry(t, n), body, buf, c, end, t0, src, got);
        if !done {
          assert got + more == live + Written(src, all, cur, end);
          return false, 0;
        }
        c := d;
      }
      assert !l.Kept(t, n) ==> got + more == got;
      got := got + more;
      from := n + 1;
    }
    assert got == live + Written(src, all, cur, end);
    ok := true;
  }

  lemma NothingLeft(m: Memory, cur: nat, end: nat)
    ensures Fits(m, []) && Image(m, []) == [] && Need(m, [], cur) == 0 && Written(m, [], cur, end) == {}
  {
  }

  /**
   expand_stream, given the compressed form of some stream and then anything; `end` is the size its caller states.
   A failure leaves behind what had been copied by then.
   */
  method Expand(l: Layout, s: Stream, buf: Memory, end: nat, ghost src: Memory, ghost offset: nat) returns (c: nat)
    requires offset < TWO64 && |src| == s.body.Length
    requires Fits(src, l.Plan(src, offset)) && Holds(buf, 0, StreamImage(l, src, offset))
    modifies s, s.body
    ensures c == if end < Demanded(l, src, offset) then 0 else |StreamImage(l, src, offset)|
    ensures s.offset == if end < OFFSET_FIELD then old(s.offset) else offset
    ensures Restored(old(s.body[..]), s.body[..], src, ExpandWritten(l, src, offset, end))
    ensures c > 0 ==> Restored(old(s.body[..]), s.body[..], src, AllLive(src, l.Plan(src, offset)))
    ensures c > 0 ==> SameStream(l, s.body[..], src, offset)
    ensures forall i: nat :: i < s.body.Length && !InField(l, src, offset, i) ==> s.body[i] == old(s.body[i])
  {
    hide WellFormed, Live, Restored, Fits, Image, Holds, Need, AllLive, Written, Layout.Plan, StoreLE, LoadLE,
         SameStream, InField;
    ghost var t0 := s.body[..];
    NothingRestored(t0, src);
    HoldsParts(buf, 0, StoreLE(offset, OFFSET_FIELD), Image(src, l.Plan(src, offset)));
    if OFFSET_FIELD > end {
      return 0;
    }
    OffsetField(buf, offset);
    s.offset := LoadLE(buf[0..OFFSET_FIELD]);
    var ok;
    ok, c := ExpandPlan(l, s.offset, s.body, buf, end, t0, src);
    WrittenIsLive(src, l.Plan(src, offset), OFFSET_FIELD, end);
    ElsewhereKept(l, t0, s.body[..], src, offset, ExpandWritten(l, src, offset, end));
    if !ok {
      return 0;
    }
    WrittenAll(src, l.Plan(src, offset), OFFSET_FIELD, end);
    FieldsRestored(l, t0, s.body[..], src, offset);
  }

  /** What an expansion overwrites in the body of the stream. */
  ghost function ExpandWritten(l: Layout, m: Memory, offset: nat, end: nat): set<nat>
    requires Fits(m, l.Plan(m, offset))
  {
    if end < OFFSET_FIELD then {} else Written(m, l.Plan(m, offset), OFFSET_FIELD, end)
  }

  /** The part of sc_expand that follows the offset. */
  method ExpandPlan(l: Layout, offset: nat, body: array<Byte>, buf: Memory, end: nat,
                    ghost t0: Memory, ghost src: Memory)
      returns (ok: bool, c: nat)
    requires Fits(src, l.Plan(src, offset)) && t0 == body[..] && |src| == body.Length
    requires Holds(buf, OFFSET_FIELD, Image(src, l.Plan(src, offset)))
    modifies body
    ensures ok <==> Need(src, l.Plan(src, offset), OFFSET_FIELD) <= end
    ensures ok ==> c == OFFSET_FIELD + |Image(src, l.Plan(src, offset))|
    ensures Restored(t0, body[..], src, Written(src, l.Plan(src, offset), OFFSET_FIELD, end))
  {
    hide WellFormed, Live, Restored, Fits, Image, Holds, Need, AllLive, Written, Layout.Entries, Layout.Fixed;
    ghost var live: set<nat>, all := {}, Written(src, l.Plan(src, offset), OFFSET_FIELD, end);
    NothingRestored(t0, src);
    c := OFFSET_FIELD;
    NextPart(src, l.Fixed(offset), l.AfterFixed(src), buf, c, end);
    live := live + Written(src, l.Fixed(offset), c, end);
    FixedMasks(l, src, offset, c, end);
    ok, c := ExpandSteps(l.Fixed(offset), body, buf, c, end, t0, src, {});
    assert {} + live == live;
    if !ok {
      assert live == all;
      return;
    }
    NextPart(src, l.Entries(src, Leaf, 0), l.AfterLeaf(src), buf, c, end);
    ghost var more := Written(src, l.Entries(src, Leaf, 0), c, end);
    ok, c := ExpandEntries(l, Leaf, body, buf, c, end, t0, src, live);
    live := live + more;
    if !ok {
      assert live == all;
      return;
    }
    NextPart(src, l.LeftSteps(src), l.AfterLeft(src), buf, c, end);
    more := Written(src, l.LeftSteps(src), c, end);
    NothingLeft(src, c, end);
    if l.hasLeft {
      ok, c := ExpandEntries(l, Left, body, buf, c, end, t0, src, live);
    }
    assert !l.hasLeft ==> live + more == live;
    live := live + more;
    if !ok {
      assert live == all;
      return;
    }
    assert live + Written(src, l.AfterLeft(src), c, end) == all;
    ok, c := ExpandSom(l, body, buf, c, end, t0, src, live);
  }

  lemma OffsetField(buf: Memory, offset: nat)
    requires offset < TWO64 && Holds(buf, 0, StoreLE(offset, OFFSET_FIELD))
    ensures OFFSET_FIELD <= |buf| && LoadLE(buf[0..OFFSET_FIELD]) == offset
  {
    hide StoreLE, LoadLE;
    assert Pow256(8) == TWO64;
    LoadStore(offset, OFFSET_FIELD);
  }

  lemma NothingRestored(t: Memory, src: Memory)
    requires |t| == |src|
    ensures Restored(t, t, src, {})
  {
  }

  /** The masks that steer the later loops are among the fixed steps. */
  lemma FixedMasks(l: Layout, m: Memory, offset: nat, cur: nat, end: nat)
    requires Fits(m, l.Fixed(offset))
    ensures WellFormed(m, l.activeLeaf) && Live(m, l.activeLeaf) <= AllLive(m, l.Fixed(offset))
    ensures WellFormed(m, l.activeLeft) && Live(m, l.activeLeft) <= AllLive(m, l.Fixed(offset))
    ensures Need(m, l.Fixed(offset), cur) <= end ==>
              Live(m, l.activeLeaf) <= Written(m, l.Fixed(offset), cur, end) &&
              Live(m, l.activeLeft) <= Written(m, l.Fixed(offset), cur, end)
  {
    hide WellFormed, Live, AllLive, Written, Need;
    var f := l.Fixed(offset);
    assert f[2] == Bits(l.activeLeaf) && f[3] == Bits(l.activeLeft);
    StepIsLive(m, f, f[2]);
    StepIsLive(m, f, f[3]);
    assert StepFits(m, f[2]) && StepFits(m, f[3]);
    if Need(m, f, cur) <= end {
      WrittenAll(m, f, cur, end);
    }
  }

  lemma ValidMask(l: Layout, m: Memory, cur: nat, end: nat)
    requires l.hasSom && Fits(m, l.SomMasks())
    ensures WellFormed(m, l.somValid) && Live(m, l.somValid) <= AllLive(m, l.SomMasks())
    ensures Need(m, l.SomMasks(), cur) <= end ==> Live(m, l.somValid) <= Written(m, l.SomMasks(), cur, end)
  {
    hide WellFormed, Live, AllLive, Written, Need;
    var f := l.SomMasks();
    assert f[1] == Bits(l.somValid);
    StepIsLive(m, f, f[1]);
    assert StepFits(m, f[1]);
    if Need(m, f, cur) <= end {
      WrittenAll(m, f, cur, end);
    }
  }

  /** sc_som_expand. */
  method ExpandSom(l: Layout, body: array<Byte>, buf: Memory, cur: nat, end: nat,
                   ghost t0: Memory, ghost src: Memory, ghost live: set<nat>) returns (ok: bool, c: nat)
    requires Fits(src, l.AfterLeft(src)) && Holds(buf, cur, Image(src, l.AfterLeft(src)))
    requires Restored(t0, body[..], src, live)
    modifies body
    ensures ok <==> Need(src, l.AfterLeft(src), cur) <= end
    ensures ok ==> c == cur + |Image(src, l.AfterLeft(src))|
    ensures Restored(t0, body[..], src, live + Written(src, l.AfterLeft(src), cur, end))
  {
    hide WellFormed, Live, Restored, Fits, Image, Holds, Need, AllLive, Written, Layout.Entries;
    NextPart(src, l.SomMasks(), l.SomSteps(src), buf, cur, end);
    NothingLeft(src, cur, end);
    ok, c := true, cur;
    if l.hasSom {
      ghost var more := Written(src, l.SomMasks(), cur, end);
      ValidMask(l, src, cur, end);
      ok, c := ExpandSteps(l.SomMasks(), body, buf, cur, end, t0, src, live);
      if !ok {
        assert more == Written(src, l.AfterLeft(src), cur, end);
        return;
      }
      ghost var slots := Written(src, l.SomSteps(src), c, end);
      ok, c := ExpandEntries(l, Som, body, buf, c, end, t0, src, live + more);
      assert live + more + slots == live + Written(src, l.AfterLeft(src), cur, end);
    } else {
      assert live + Written(src, l.AfterLeft(src), cur, end) == live;
    }
  }
}
