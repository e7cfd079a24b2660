/**
 The multibit structure of src/util/multibit.h and its compressed form
 (src/util/multibit_compress.h).  Up to 256 keys are a plain bit vector.  More
 keys are a pyramid of 64-bit blocks: a set bit in a block says that the block
 below it is in use, and only blocks in use are written out, in preorder.
 */
module MultibitCodec {
  import opened Common

  type Memory = seq<Byte>

  const FLAT_MAX_BITS := 256
  const BLOCK := 8

  /** A multibit of `total` keys stored at `base`. */
  datatype Multibit = Multibit(base: nat, total: nat) {
    predicate Flat() { total <= FLAT_MAX_BITS }
    function Max(): nat { MaxLevel(total) }
  }

  // ----- memory

  function TestBit(b: nat, j: nat): bool {
    if j == 0 then b % 2 == 1 else TestBit(b / 2, j - 1)
  }

  /** Bit `j` of the little-endian word at `a`. */
  predicate BitAt(m: Memory, a: nat, j: nat) {
    a + j / 8 < |m| && TestBit(m[a + j / 8], j % 8)
  }

  method Store(dst: array<Byte>, at: nat, data: Memory)
    requires at + |data| <= dst.Length
    modifies dst
    ensures dst[..] == Splice(old(dst[..]), at, data)
  {
    forall i | 0 <= i < |data| {
      dst[at + i] := data[i];
    }
  }

  ghost function Span(a: nat, n: nat): (r: set<nat>)
    ensures forall i: nat :: i in r <==> a <= i < a + n
    decreases n
  {
    if n == 0 then {} else {a} + Span(a + 1, n - 1)
  }

  /** Memory `t0` with the addresses in `live` overwritten by their values in `src`. */
  ghost predicate Restored(t0: Memory, t: Memory, src: Memory, live: set<nat>) {
    |t0| == |t| == |src| &&
    forall i: nat :: i < |t| ==> t[i] == if i in live then src[i] else t0[i]
  }

  lemma SpliceRestores(t0: Memory, t: Memory, src: Memory, live: set<nat>, a: nat, n: nat)
    requires Restored(t0, t, src, live) && a + n <= |t|
    ensures Restored(t0, Splice(t, a, src[a..a + n]), src, live + Span(a, n))
  {
  }

  lemma FirstCopy(t: Memory, src: Memory, a: nat, data: Memory)
    requires |t| == |src| && a + |data| <= |t| && data == src[a..a + |data|]
    ensures Restored(t, Splice(t, a, data), src, Span(a, |data|))
  {
    SpliceRestores(t, t, src, {}, a, |data|);
  }

  // ----- the pyramid

  /** mmbit_maxlevel: the number of the last level, when level l holds 64^l blocks. */
  function MaxLevel(total: nat): nat {
    if total <= 64 then 0 else 1 + MaxLevel((total + 63) / 64)
  }

  function Pow64(n: nat): (r: nat) ensures r > 0 { if n == 0 then 1 else 64 * Pow64(n - 1) }

  /** Blocks before level `l`; mmbit_root_offset_from_level. */
  function RootOffset(l: nat): nat { if l == 0 then 0 else 64 * RootOffset(l - 1) + 1 }

  function Child(key: nat, j: nat): nat { 64 * key + j }

  function Parent(key: nat): nat { key / 64 }

  function Slot(key: nat): (j: nat) ensures j < 64 { key % 64 }

  lemma ChildOf(key: nat, j: nat)
    requires j < 64
    ensures Parent(Child(key, j)) == key && Slot(Child(key, j)) == j
  {
  }

  function Addr(base: nat, level: nat, key: nat): nat { base + BLOCK * (RootOffset(level) + key) }

  /** mmbit_size in bytes. */
  function Size(mb: Multibit): nat {
    if mb.Flat() then (mb.total + 7) / 8 else BLOCK * (RootOffset(mb.Max()) + (mb.total + 63) / 64)
  }

  /** The blocks in use under block (level, key), for child bits from `rem` on, in preorder. */
  function Below(m: Memory, base: nat, max: nat, level: nat, key: nat, rem: nat): seq<nat>
    requires level <= max && rem <= 64
    decreases max - level, 64 - rem
  {
    if level == max || rem == 64 then []
    else
      (if BitAt(m, Addr(base, level, key), rem)
       then [Addr(base, level + 1, Child(key, rem))] + Below(m, base, max, level + 1, Child(key, rem), 0)
       else []) + Below(m, base, max, level, key, rem + 1)
  }

  function Blocks(m: Memory, mb: Multibit): seq<nat> {
    [Addr(mb.base, 0, 0)] + Below(m, mb.base, mb.Max(), 0, 0, 0)
  }

  predicate Inside(addrs: seq<nat>, lo: nat, hi: nat) {
    forall i :: 0 <= i < |addrs| ==> lo <= addrs[i] && addrs[i] + BLOCK <= hi
  }

  function Words(m: Memory, addrs: seq<nat>): (r: Memory)
    requires Inside(addrs, 0, |m|)
    ensures |r| == BLOCK * |addrs|
  {
    if addrs == [] then [] else m[addrs[0]..addrs[0] + BLOCK] + Words(m, addrs[1..])
  }

  /** The structure lies in memory, and blocks in use lie inside it. */
  predicate WellFormed(m: Memory, mb: Multibit) {
    mb.base + Size(mb) <= |m| &&
    (!mb.Flat() ==> Inside(Blocks(m, mb), mb.base, mb.base + Size(mb)))
  }

  /** The compressed form. */
  function Encoded(m: Memory, mb: Multibit): Memory
    requires WellFormed(m, mb)
  {
    if mb.Flat() then m[mb.base..mb.base + Size(mb)] else Words(m, Blocks(m, mb))
  }

  /** The bytes that say which keys are set. */
  ghost function Live(m: Memory, mb: Multibit): set<nat> {
    if mb.Flat() then Span(mb.base, Size(mb)) else Spans(Blocks(m, mb))
  }

  ghost function Spans(addrs: seq<nat>): set<nat> {
    if addrs == [] then {} else Span(addrs[0], BLOCK) + Spans(addrs[1..])
  }

  // ----- keys

  /** The bits above block (or key) (level, key) are all set. */
  predicate Linked(m: Memory, base: nat, level: nat, key: nat) {
    if level == 0 then key == 0
    else Linked(m, base, level - 1, Parent(key)) && BitAt(m, Addr(base, level - 1, Parent(key)), Slot(key))
  }

  /** mmbit_isset. */
  predicate IsSet(m: Memory, mb: Multibit, k: nat) {
    k < mb.total &&
    if mb.Flat() then BitAt(m, mb.base, k) else Linked(m, mb.base, mb.Max() + 1, k)
  }

  /** mmbit_iterate: the least key from `k` on that is set, or `total`. */
  function Next(m: Memory, mb: Multibit, k: nat): (r: nat)
    ensures k <= mb.total ==> k <= r <= mb.total
    decreases mb.total - k
  {
    if k >= mb.total then mb.total else if IsSet(m, mb, k) then k else Next(m, mb, k + 1)
  }

  lemma {:induction false} NextIsLeast(m: Memory, mb: Multibit, k: nat)
    ensures var r := Next(m, mb, k);
            (r < mb.total ==> IsSet(m, mb, r)) && forall i: nat :: k <= i < r ==> !IsSet(m, mb, i)
    decreases mb.total - k
  {
    hide IsSet;
    if k < mb.total {
      NextIsLeast(m, mb, k + 1);
    }
  }

  // ----- walking a block's bits

  /** mmb_popcount of the bits from `from` on. */
  function Count(m: Memory, a: nat, from: nat): (n: nat)
    requires from <= 64
    decreases 64 - from
  {
    if from == 64 then 0 else (if BitAt(m, a, from) then 1 else 0) + Count(m, a, from + 1)
  }

  /** mmb_ctz of the block with its bits below `from` masked off; 64 when nothing is left. */
  function Lowest(m: Memory, a: nat, from: nat): (j: nat)
    requires from <= 64
    ensures from <= j <= 64 && (j < 64 ==> BitAt(m, a, j))
    decreases 64 - from
  {
    if from == 64 || BitAt(m, a, from) then from else Lowest(m, a, from + 1)
  }

  /** The popcount test of the walk: masking off bits below `rem` loses something when bit `rem - 1` is set. */
  lemma {:induction false} CountDrops(m: Memory, a: nat, from: nat, cut: nat)
    requires from <= cut <= 64
    ensures Count(m, a, cut) <= Count(m, a, from)
    ensures from < cut && BitAt(m, a, cut - 1) ==> Count(m, a, cut) < Count(m, a, from)
    decreases cut
  {
    if from < cut {
      CountDrops(m, a, from, cut - 1);
    }
  }

  lemma {:induction false} SkipClear(m: Memory, base: nat, max: nat, level: nat, key: nat, rem: nat)
    requires level < max && rem <= 64
    ensures var j := Lowest(m, Addr(base, level, key), rem);
            Below(m, base, max, level, key, rem) == Below(m, base, max, level, key, j)
    decreases 64 - rem
  {
    if rem < 64 && !BitAt(m, Addr(base, level, key), rem) {
      SkipClear(m, base, max, level, key, rem + 1);
    }
  }

  // ----- the iterative walk

  /** Blocks still to be visited once everything under block (level, key) is done. */
  function Above(m: Memory, base: nat, max: nat, level: nat, key: nat): seq<nat>
    requires level <= max
    decreases level
  {
    if level == 0 then []
    else Below(m, base, max, level - 1, Parent(key), Slot(key) + 1) + Above(m, base, max, level - 1, Parent(key))
  }

  /** Blocks still to be visited by a walk that stands at block (level, key) before child bit `rem`. */
  function Rest(m: Memory, base: nat, max: nat, level: nat, key: nat, rem: nat): seq<nat>
    requires level <= max && rem <= 64
  {
    Below(m, base, max, level, key, rem) + Above(m, base, max, level, key)
  }

  /** The walk came down through set bits, so on the way up the popcount test fails. */
  predicate Came(m: Memory, base: nat, max: nat, level: nat, key: nat, rem: nat) {
    level <= max && rem <= 64 && Linked(m, base, level, key) &&
    (rem > 0 ==> BitAt(m, Addr(base, level, key), rem - 1))
  }

  lemma FirstVisit(m: Memory, base: nat, max: nat, level: nat, key: nat, rem: nat)
    requires Came(m, base, max, level, key, rem)
    ensures Count(m, Addr(base, level, key), 0) == Count(m, Addr(base, level, key), rem) <==> rem == 0
  {
    CountDrops(m, Addr(base, level, key), 0, rem);
  }

  lemma {:induction false} Descend(m: Memory, base: nat, max: nat, level: nat, key: nat, rem: nat, j: nat)
    requires Came(m, base, max, level, key, rem)
    requires level < max && j == Lowest(m, Addr(base, level, key), rem) < 64
    ensures Came(m, base, max, level + 1, Child(key, j), 0)
    ensures Rest(m, base, max, level, key, rem) ==
            [Addr(base, level + 1, Child(key, j))] + Rest(m, base, max, level + 1, Child(key, j), 0)
  {
    hide Addr, BitAt, Child, Parent, Slot, Lowest;
    SkipClear(m, base, max, level, key, rem);
    ChildOf(key, j);
    var sub, right := Below(m, base, max, level + 1, Child(key, j), 0), Below(m, base, max, level, key, j + 1);
    var up := Above(m, base, max, level, key);
    assert Above(m, base, max, level + 1, Child(key, j)) == right + up;
    assert Below(m, base, max, level, key, rem) == [Addr(base, level + 1, Child(key, j))] + sub + right;
  }

  /** Going up: nothing is left under this block, and what is left is what the parent has left. */
  lemma {:induction false} Ascend(m: Memory, base: nat, max: nat, level: nat, key: nat, rem: nat)
    requires Came(m, base, max, level, key, rem)
    requires level == max || rem == 64 || Lowest(m, Addr(base, level, key), rem) == 64
    ensures level == 0 ==> Rest(m, base, max, level, key, rem) == []
    ensures level > 0 ==> Came(m, base, max, level - 1, Parent(key), Slot(key) + 1)
    ensures level > 0 ==>
              Rest(m, base, max, level, key, rem) == Rest(m, base, max, level - 1, Parent(key), Slot(key) + 1)
  {
    hide Addr, BitAt, Child, Parent, Slot, Lowest;
    assert level == max || rem == 64 ==> Below(m, base, max, level, key, rem) == [];
    if level < max {
      SkipClear(m, base, max, level, key, rem);
    }
  }

  lemma {:induction false} Start(m: Memory, mb: Multibit)
    ensures Came(m, mb.base, mb.Max(), 0, 0, 0)
    ensures Addr(mb.base, 0, 0) == mb.base && Blocks(m, mb) == [mb.base] + Rest(m, mb.base, mb.Max(), 0, 0, 0)
    ensures Lowest(m, mb.base, 0) == 64 ==> Blocks(m, mb) == [mb.base]
  {
    assert Addr(mb.base, 0, 0) == mb.base;
    if mb.Max() > 0 {
      SkipClear(m, mb.base, mb.Max(), 0, 0, 0);
    }
  }

  /** mmbit_compsize. */
  method CompSize(m: Memory, mb: Multibit) returns (sz: nat)
    requires WellFormed(m, mb)
    ensures sz == |Encoded(m, mb)|
  {
    if mb.Flat() {
      return (mb.total + 7) / 8;
    }
    Start(m, mb);
    if Lowest(m, mb.base, 0) == 64 {
      return BLOCK;
    }
    sz := CountBlocks(m, mb);
  }

  /** The loop of mmbit_compsize. */
  method CountBlocks(m: Memory, mb: Multibit) returns (sz: nat)
    ensures sz == BLOCK * |Blocks(m, mb)|
  {
    hide Addr, Child, Parent, Slot, Lowest, Count, Rest, Came, Blocks, Inside, Words, Splice, Multibit.Max;
    Start(m, mb);
    ghost var all := Blocks(m, mb);
    var base, max := mb.base, mb.Max();
    var level: nat, key: nat, rem: nat, blocks: nat := 0, 0, 0, 0;
    while true
      invariant level <= max && rem <= 64 && Came(m, base, max, level, key, rem)
      invariant |all| == blocks + (if rem == 0 then 1 else 0) + |Rest(m, base, max, level, key, rem)|
      decreases |Rest(m, base, max, level, key, rem)|, level
    {
      var a := Addr(base, level, key);
      if rem < 64 {
        FirstVisit(m, base, max, level, key, rem);
        if Count(m, a, 0) == Count(m, a, rem) {
          blocks := blocks + 1;
        }
        var j := Lowest(m, a, rem);
        if level < max && j < 64 {
          Descend(m, base, max, level, key, rem, j);
          key := Child(key, j);
          rem := 0;
          level := level + 1;
          continue;
        }
      }
      Ascend(m, base, max, level, key, rem);
      if level == 0 {
        return BLOCK * blocks;
      }
      level := level - 1;
      rem := Slot(key) + 1;
      key := Parent(key);
    }
  }

  /** mmbit_compress: writes at `at`, given `space` bytes from there. */
  method Compress(m: Memory, mb: Multibit, buf: array<Byte>, at: nat, space: nat) returns (ok: bool, sz: nat)
    requires WellFormed(m, mb) && at + space <= buf.Length
    modifies buf
    ensures ok <==> |Encoded(m, mb)| <= space
    ensures ok ==> sz == |Encoded(m, mb)| && buf[..] == Splice(old(buf[..]), at, Encoded(m, mb))
    ensures !ok ==> buf[..] == old(buf[..])
  {
    sz := CompSize(m, mb);
    if sz > space {
      return false, 0;
    }
    ok := true;
    if mb.Flat() {
      Store(buf, at, m[mb.base..mb.base + sz]);
      return;
    }
    Start(m, mb);
    if Lowest(m, mb.base, 0) == 64 {
      assert Words(m, [mb.base]) == m[mb.base..mb.base + BLOCK];
      Store(buf, at, m[mb.base..mb.base + BLOCK]);
      return;
    }
    WriteBlocks(m, mb, buf, at);
  }

  /** The loop of mmbit_compress. */
  method WriteBlocks(m: Memory, mb: Multibit, buf: array<Byte>, at: nat)
    requires Inside(Blocks(m, mb), 0, |m|) && at + BLOCK * |Blocks(m, mb)| <= buf.Length
    modifies buf
    ensures buf[..] == Splice(old(buf[..]), at, Words(m, Blocks(m, mb)))
  {
    hide Addr, Child, Parent, Slot, Lowest, Count, Rest, Came, Blocks, Inside, Words, Splice, Multibit.Max;
    Start(m, mb);
    ghost var all, was := Blocks(m, mb), buf[..];
    ghost var done: nat := 0;
    var base, max, comp := mb.base, mb.Max(), at;
    var level: nat, key: nat, rem: nat := 0, 0, 0;
    TakeInside(all, 0, |m|, 0);
    NoWords(m, was, at);
    while true
      invariant level <= max && rem <= 64 && Came(m, base, max, level, key, rem)
      invariant done <= |all| && comp == at + BLOCK * done && Inside(all[..done], 0, |m|)
      invariant all[done..] == (if rem == 0 then [Addr(base, level, key)] else []) + Rest(m, base, max, level, key, rem)
      invariant buf[..] == Splice(was, at, Words(m, all[..done]))
      decreases |Rest(m, base, max, level, key, rem)|, level
    {
      var a := Addr(base, level, key);
      if rem < 64 {
        FirstVisit(m, base, max, level, key, rem);
        if Count(m, a, 0) == Count(m, a, rem) {
          assert all[done] == all[done..][0] == a;
          OneMoreWord(m, all, done);
          SpliceNext(was, at, Words(m, all[..done]), m[a..a + BLOCK]);
          Store(buf, comp, m[a..a + BLOCK]);
          comp := comp + BLOCK;
          done := done + 1;
        }
        assert all[done..] == Rest(m, base, max, level, key, rem);
        var j := Lowest(m, a, rem);
        if level < max && j < 64 {
          Descend(m, base, max, level, key, rem, j);
          key := Child(key, j);
          rem := 0;
          level := level + 1;
          continue;
        }
      }
      assert all[done..] == Rest(m, base, max, level, key, rem);
      Ascend(m, base, max, level, key, rem);
      if level == 0 {
        assert all[..done] == all;
        return;
      }
      level := level - 1;
      rem := Slot(key) + 1;
      key := Parent(key);
    }
  }

  lemma {:induction false} TakeInside(addrs: seq<nat>, lo: nat, hi: nat, n: nat)
    requires Inside(addrs, lo, hi) && n <= |addrs|
    ensures Inside(addrs[..n], lo, hi)
    ensures n < |addrs| ==> addrs[n] + BLOCK <= hi
  {
  }

  lemma NoWords(m: Memory, s: Memory, at: nat)
    requires at <= |s|
    ensures s == Splice(s, at, Words(m, []))
  {
  }

  lemma {:induction false} OneMoreWord(m: Memory, all: seq<nat>, n: nat)
    requires Inside(all, 0, |m|) && n < |all|
    ensures Inside(all[..n], 0, |m|) && Inside(all[..n + 1], 0, |m|) && all[n] + BLOCK <= |m|
    ensures Words(m, all[..n + 1]) == Words(m, all[..n]) + m[all[n]..all[n] + BLOCK]
  {
    hide Words, Inside;
    TakeInside(all, 0, |m|, n);
    TakeInside(all, 0, |m|, n + 1);
    assert all[..n + 1] == all[..n] + [all[n]];
    WordsSnoc(m, all[..n], all[n]);
  }

  lemma EmptySplice(s: Memory, at: nat)
    requires at <= |s|
    ensures Splice(s, at, []) == s
  {
  }

  lemma SpliceNext(s: Memory, at: nat, a: Memory, b: Memory)
    requires at + |a| + |b| <= |s|
    ensures Splice(Splice(s, at, a), at + |a|, b) == Splice(s, at, a + b)
  {
  }

  lemma {:induction false} WordsSnoc(m: Memory, addrs: seq<nat>, a: nat)
    requires Inside(addrs + [a], 0, |m|)
    ensures Inside(addrs, 0, |m|) && a + BLOCK <= |m|
    ensures Words(m, addrs + [a]) == Words(m, addrs) + m[a..a + BLOCK]
  {
    assert (addrs + [a])[|addrs|] == a;
    assert forall i :: 0 <= i < |addrs| ==> (addrs + [a])[i] == addrs[i];
    if addrs != [] {
      assert (addrs + [a])[1..] == addrs[1..] + [a];
      WordsSnoc(m, addrs[1..], a);
    }
  }

  // ----- decompression

  /** The block at `a` in one memory is the block at `b` in the other. */
  predicate SameBlock(m: Memory, a: nat, n: Memory, b: nat) {
    a + BLOCK <= |m| && b + BLOCK <= |n| && m[a..a + BLOCK] == n[b..b + BLOCK]
  }

  lemma SameBit(m: Memory, a: nat, n: Memory, b: nat, j: nat)
    requires SameBlock(m, a, n, b) && j < 64
    ensures BitAt(m, a, j) == BitAt(n, b, j)
  {
    hide TestBit;
    assert m[a..a + BLOCK][j / 8] == n[b..b + BLOCK][j / 8];
  }

  lemma {:induction false} SameLowest(m: Memory, a: nat, n: Memory, b: nat, from: nat)
    requires SameBlock(m, a, n, b) && from <= 64
    ensures Lowest(m, a, from) == Lowest(n, b, from)
    decreases 64 - from
  {
    hide BitAt, SameBlock;
    if from < 64 {
      SameBit(m, a, n, b, from);
      SameLowest(m, a, n, b, from + 1);
    }
  }

  /** Block (level, key) and the blocks above it have been copied. */
  predicate Chain(done: seq<nat>, base: nat, level: nat, key: nat) {
    Addr(base, level, key) in done && (level > 0 ==> Chain(done, base, level - 1, Parent(key)))
  }

  lemma {:induction false} ChainGrows(done: seq<nat>, a: nat, base: nat, level: nat, key: nat)
    requires Chain(done, base, level, key)
    ensures Chain(done + [a], base, level, key)
  {
    if level > 0 {
      ChainGrows(done, a, base, level - 1, Parent(key));
    }
  }

  lemma {:induction false} SpansHas(addrs: seq<nat>, a: nat)
    requires a in addrs
    ensures Span(a, BLOCK) <= Spans(addrs)
  {
    if a != addrs[0] {
      SpansHas(addrs[1..], a);
    }
  }

  lemma {:induction false} SpansSnoc(addrs: seq<nat>, a: nat)
    ensures Spans(addrs + [a]) == Spans(addrs) + Span(a, BLOCK)
  {
    if addrs != [] {
      assert (addrs + [a])[1..] == addrs[1..] + [a];
      SpansSnoc(addrs[1..], a);
    }
  }

  lemma RestoredSlice(t0: Memory, t: Memory, src: Memory, live: set<nat>, a: nat, n: nat)
    requires Restored(t0, t, src, live) && Span(a, n) <= live && a + n <= |t|
    ensures t[a..a + n] == src[a..a + n]
  {
    forall i: nat | a <= i < a + n ensures t[i] == src[i] {
      assert i in Span(a, n);
    }
  }

  lemma {:induction false} RestoredBlock(t0: Memory, t: Memory, src: Memory, addrs: seq<nat>, a: nat)
    requires Restored(t0, t, src, Spans(addrs)) && a in addrs && Inside(addrs, 0, |src|)
    ensures SameBlock(t, a, src, a)
  {
    hide Spans, Restored;
    assert |t| == |src| by { SameLength(t0, t, src, Spans(addrs)); }
    SpansHas(addrs, a);
    RestoredSlice(t0, t, src, Spans(addrs), a, BLOCK);
  }

  lemma SameLength(t0: Memory, t: Memory, src: Memory, live: set<nat>)
    requires Restored(t0, t, src, live)
    ensures |t0| == |t| == |src|
  {
  }

  lemma {:induction false} WordsAt(m: Memory, addrs: seq<nat>, i: nat)
    requires Inside(addrs, 0, |m|) && i < |addrs|
    ensures Words(m, addrs)[BLOCK * i..BLOCK * i + BLOCK] == m[addrs[i]..addrs[i] + BLOCK]
  {
    if i > 0 {
      WordsAt(m, addrs[1..], i - 1);
      var w := Words(m, addrs[1..]);
      assert Words(m, addrs)[BLOCK..] == w;
      assert Words(m, addrs)[BLOCK..][BLOCK * (i - 1)..BLOCK * i] == Words(m, addrs)[BLOCK * i..BLOCK * i + BLOCK];
    }
  }

  lemma SliceOfSlice(s: Memory, at: nat, n: nat, from: nat, till: nat)
    requires at + n <= |s| && from <= till <= n
    ensures s[at..at + n][from..till] == s[at + from..at + till]
  {
    var mid, a, b := s[at..at + n], s[at..at + n][from..till], s[at + from..at + till];
    assert |a| == |b|;
    forall k: nat | k < |a| ensures a[k] == b[k] {
      assert a[k] == mid[from + k] == s[at + (from + k)];
    }
  }

  /** Block `i` of a compressed pyramid that starts at `at`. */
  lemma {:induction false} WordIn(m: Memory, addrs: seq<nat>, comp: Memory, at: nat, i: nat)
    requires Inside(addrs, 0, |m|) && i < |addrs|
    requires at + BLOCK * |addrs| <= |comp| && comp[at..at + BLOCK * |addrs|] == Words(m, addrs)
    ensures SameBlock(comp, at + BLOCK * i, m, addrs[i])
  {
    hide Words, Inside;
    WordsAt(m, addrs, i);
    var from, n := BLOCK * i, BLOCK * |addrs|;
    assert addrs[i] + BLOCK <= |m| by { TakeInside(addrs, 0, |m|, i); }
    SliceOfSlice(comp, at, n, from, from + BLOCK);
  }

  lemma {:induction false} ChainUp(done: seq<nat>, base: nat, level: nat, key: nat)
    requires Chain(done, base, level, key) && level > 0
    ensures Chain(done, base, level - 1, Parent(key))
  {
  }

  /** Before the loop of mmbit_decompress: the root block is in place. */
  lemma {:induction false} CopyRoot(src: Memory, mb: Multibit, comp: Memory, at: nat, was: Memory)
    requires |was| == |src| && Inside(Blocks(src, mb), 0, |src|)
    requires at + BLOCK * |Blocks(src, mb)| <= |comp|
    requires comp[at..at + BLOCK * |Blocks(src, mb)|] == Words(src, Blocks(src, mb))
    ensures |Blocks(src, mb)| > 0 && mb.base + BLOCK <= |was|
    ensures Chain(Blocks(src, mb)[..1], mb.base, 0, 0)
    ensures Restored(was, Splice(was, mb.base, comp[at..at + BLOCK]), src, Spans(Blocks(src, mb)[..1]))
  {
    hide Splice, Words, Spans;
    var all := Blocks(src, mb);
    Start(src, mb);
    assert all[..1] == [] + [mb.base];
    SpansSnoc([], mb.base);
    assert Spans([]) == {} by { NoSpans(); }
    WordIn(src, all, comp, at, 0);
    SpliceRestores(was, was, src, {}, mb.base, BLOCK);
  }

  lemma NoSpans()
    ensures Spans([]) == {}
  {
  }

  /** The block the walk stands at has been copied, so reading it gives the source's bits. */
  lemma {:induction false} SteerBySource(was: Memory, t: Memory, src: Memory, all: seq<nat>, done: nat,
                      base: nat, level: nat, key: nat, rem: nat)
    requires rem <= 64 && done <= |all| && Inside(all, 0, |src|)
    requires Restored(was, t, src, Spans(all[..done])) && Chain(all[..done], base, level, key)
    ensures Lowest(t, Addr(base, level, key), rem) == Lowest(src, Addr(base, level, key), rem)
  {
    hide Restored, SameBlock, Inside, Lowest, Addr;
    TakeInside(all, 0, |src|, done);
    RestoredBlock(was, t, src, all[..done], Addr(base, level, key));
    SameLowest(t, Addr(base, level, key), src, Addr(base, level, key), rem);
  }

  /** Copying the next block, which is child `j` of the block the walk stands at. */
  lemma {:induction false} CopyChild(was: Memory, t: Memory, src: Memory, all: seq<nat>, done: nat, comp: Memory,
                                     at: nat,
                  base: nat, level: nat, child: nat)
    requires done < |all| && Inside(all, 0, |src|) && all[done] == Addr(base, level + 1, child)
    requires Restored(was, t, src, Spans(all[..done])) && Chain(all[..done], base, level, Parent(child))
    requires at + BLOCK * |all| <= |comp| && comp[at..at + BLOCK * |all|] == Words(src, all)
    ensures all[done] + BLOCK <= |t| && at + BLOCK * done + BLOCK <= |comp|
    ensures Chain(all[..done + 1], base, level + 1, child)
    ensures Restored(was, Splice(t, all[done], comp[at + BLOCK * done..at + BLOCK * done + BLOCK]), src,
                     Spans(all[..done + 1]))
  {
    hide Inside, Splice, Words, Spans, Addr, Parent;
    var a := all[done];
    TakeInside(all, 0, |src|, done);
    assert all[..done + 1] == all[..done] + [a];
    ChainGrows(all[..done], a, base, level, Parent(child));
    SpansSnoc(all[..done], a);
    WordIn(src, all, comp, at, done);
    SpliceRestores(was, t, src, Spans(all[..done]), a, BLOCK);
  }

  lemma OneBlock(m: Memory, a: nat, n: Memory, b: nat)
    requires SameBlock(m, a, n, b)
    ensures m[a..a + BLOCK] == n[b..b + BLOCK] && Spans([b]) == Span(b, BLOCK)
  {
    SpansSnoc([], b);
  }

  /** Whether mmbit_decompress compares anything with the end of its input: only blocks below the root. */
  predicate Checked(m: Memory, mb: Multibit) { !mb.Flat() && |Blocks(m, mb)| > 1 }

  /** How many blocks have been written when one below the root first runs past `end`: that one is among them. */
  function BlocksRead(at: nat, end: nat): nat { if end < at + 2 * BLOCK then 2 else (end - at) / BLOCK + 1 }

  lemma BlocksReadFit(at: nat, end: nat, n: nat)
    requires n > 1 && end < at + BLOCK * n
    ensures BlocksRead(at, end) <= n
  {
  }

  lemma BlocksReadIs(at: nat, end: nat, done: nat)
    requires done >= 1 && end < at + BLOCK * (done + 1) && (done > 1 ==> at + BLOCK * done <= end)
    ensures BlocksRead(at, end) == done + 1
  {
  }

  /** What mmbit_decompress overwrites, whether it succeeds or not. */
  ghost function Overwritten(m: Memory, mb: Multibit, at: nat, end: nat): set<nat>
    requires WellFormed(m, mb)
  {
    if Checked(m, mb) && end < at + |Encoded(m, mb)| then
      BlocksReadFit(at, end, |Blocks(m, mb)|);
      Spans(Blocks(m, mb)[..BlocksRead(at, end)])
    else Live(m, mb)
  }

  /** mmbit_decompress: `end` is where the caller says its input ends. */
  method Decompress(bits: array<Byte>, mb: Multibit, comp: Memory, at: nat, end: nat, ghost src: Memory)
      returns (ok: bool, sz: nat)
    requires WellFormed(src, mb) && bits.Length == |src|
    requires at + |Encoded(src, mb)| <= |comp| && comp[at..at + |Encoded(src, mb)|] == Encoded(src, mb)
    modifies bits
    ensures ok <==> (Checked(src, mb) ==> at + |Encoded(src, mb)| <= end)
    ensures ok ==> sz == |Encoded(src, mb)|
    ensures Restored(old(bits[..]), bits[..], src, Overwritten(src, mb, at, end))
  {
    hide Words, Splice, Spans, Lowest, SameBlock, Restored, BlocksRead;
    ok := true;
    if mb.Flat() {
      sz := (mb.total + 7) / 8;
      FirstCopy(bits[..], src, mb.base, comp[at..at + sz]);
      Store(bits, mb.base, comp[at..at + sz]);
      return;
    }
    Start(src, mb);
    WordIn(src, Blocks(src, mb), comp, at, 0);
    SameLowest(comp, at, src, mb.base, 0);
    if Lowest(comp, at, 0) == 64 {
      sz := BLOCK;
      OneBlock(comp, at, src, mb.base);
      FirstCopy(bits[..], src, mb.base, comp[at..at + sz]);
      Store(bits, mb.base, comp[at..at + sz]);
      return;
    }
    ok, sz := ReadBlocks(bits, mb, comp, at, end, src);
  }

  /** The loop of mmbit_decompress: it steers by blocks it has just written. */
  method ReadBlocks(bits: array<Byte>, mb: Multibit, comp: Memory, at: nat, end: nat, ghost src: Memory)
      returns (ok: bool, sz: nat)
    requires bits.Length == |src| && Inside(Blocks(src, mb), 0, |src|)
    requires at + BLOCK * |Blocks(src, mb)| <= |comp|
    requires comp[at..at + BLOCK * |Blocks(src, mb)|] == Words(src, Blocks(src, mb))
    modifies bits
    ensures ok <==> (|Blocks(src, mb)| > 1 ==> at + BLOCK * |Blocks(src, mb)| <= end)
    ensures ok ==> sz == BLOCK * |Blocks(src, mb)|
    ensures ok ==> Restored(old(bits[..]), bits[..], src, Spans(Blocks(src, mb)))
    ensures !ok ==> BlocksRead(at, end) <= |Blocks(src, mb)| &&
                    Restored(old(bits[..]), bits[..], src, Spans(Blocks(src, mb)[..BlocksRead(at, end)]))
  {
    hide BlocksRead, Addr, Child, Parent, Slot, Lowest, Rest, Came, Blocks, Inside, Words, Splice, Multibit.Max,
         Chain, Spans, Restored, SameBlock;
    Start(src, mb);
    ghost var all, was := Blocks(src, mb), bits[..];
    ghost var done: nat := 1;
    var base, max, c := mb.base, mb.Max(), at + BLOCK;
    var level: nat, key: nat, rem: nat := 0, 0, 0;
    CopyRoot(src, mb, comp, at, was);
    Store(bits, base, comp[at..at + BLOCK]);
    while true
      invariant level <= max && rem <= 64 && Came(src, base, max, level, key, rem)
      invariant 1 <= done <= |all| && c == at + BLOCK * done && (done > 1 ==> c <= end)
      invariant all[done..] == Rest(src, base, max, level, key, rem)
      invariant Chain(all[..done], base, level, key)
      invariant Restored(was, bits[..], src, Spans(all[..done]))
      decreases |Rest(src, base, max, level, key, rem)|, level
    {
      if rem < 64 {
        var a := Addr(base, level, key);
        SteerBySource(was, bits[..], src, all, done, base, level, key, rem);
        var j := Lowest(bits[..], a, rem);
        if level < max && j < 64 {
          Descend(src, base, max, level, key, rem, j);
          ChildOf(key, j);
          key := Child(key, j);
          assert all[done] == all[done..][0] == Addr(base, level + 1, key);
          CopyChild(was, bits[..], src, all, done, comp, at, base, level, key);
          Store(bits, Addr(base, level + 1, key), comp[c..c + BLOCK]);
          c := c + BLOCK;
          if c > end {
            BlocksReadIs(at, end, done);
            return false, 0;
          }
          done := done + 1;
          rem := 0;
          level := level + 1;
          continue;
        }
      }
      Ascend(src, base, max, level, key, rem);
      if level == 0 {
        assert all[..done] == all;
        return true, c - at;
      }
      ChainUp(all[..done], base, level, key);
      level := level - 1;
      rem := Slot(key) + 1;
      key := Parent(key);
    }
  }

  // ----- the keys that a restored copy holds

  lemma {:induction false} ChildVisited(m: Memory, base: nat, max: nat, level: nat, key: nat, rem: nat, j: nat)
    requires level < max && rem <= j < 64 && BitAt(m, Addr(base, level, key), j)
    ensures Addr(base, level + 1, Child(key, j)) in Below(m, base, max, level, key, rem)
    ensures forall a <- Below(m, base, max, level + 1, Child(key, j), 0) :: a in Below(m, base, max, level, key, rem)
    decreases j - rem
  {
    hide Addr, BitAt, Child;
    if rem < j {
      ChildVisited(m, base, max, level, key, rem + 1, j);
    }
  }

  /** Every block under a chain of set bits is visited, whatever the lazy clearing of keys has left in it. */
  lemma {:induction false} LinkedVisited(m: Memory, mb: Multibit, level: nat, key: nat)
    requires level <= mb.Max() && Linked(m, mb.base, level, key)
    ensures Addr(mb.base, level, key) in Blocks(m, mb)
    ensures forall a <- Below(m, mb.base, mb.Max(), level, key, 0) :: a in Blocks(m, mb)
  {
    hide Addr, BitAt, Child, Parent, Slot, Below, Multibit.Max;
    if level > 0 {
      assert key == Child(Parent(key), Slot(key)) by { Rejoin(key); }
      LinkedVisited(m, mb, level - 1, Parent(key));
      ChildVisited(m, mb.base, mb.Max(), level - 1, Parent(key), 0, Slot(key));
    }
  }

  lemma Rejoin(key: nat)
    ensures key == Child(Parent(key), Slot(key))
  {
  }

  lemma {:induction false} SameLinked(t0: Memory, t: Memory, src: Memory, mb: Multibit, level: nat, key: nat)
    requires WellFormed(src, mb) && !mb.Flat() && level <= mb.Max() + 1
    requires Restored(t0, t, src, Spans(Blocks(src, mb)))
    ensures Linked(t, mb.base, level, key) == Linked(src, mb.base, level, key)
  {
    hide Addr, BitAt, Parent, Slot, Blocks, Restored, SameBlock, Spans;
    if level > 0 {
      SameLinked(t0, t, src, mb, level - 1, Parent(key));
      if Linked(src, mb.base, level - 1, Parent(key)) {
        LinkedVisited(src, mb, level - 1, Parent(key));
        RestoredBlock(t0, t, src, Blocks(src, mb), Addr(mb.base, level - 1, Parent(key)));
        SameBit(t, Addr(mb.base, level - 1, Parent(key)), src, Addr(mb.base, level - 1, Parent(key)), Slot(key));
      }
    }
  }

  lemma Fewer(t0: Memory, t: Memory, src: Memory, live: set<nat>, some: set<nat>)
    requires Restored(t0, t, src, live) && some <= live
    ensures Restored(t, t, src, some)
  {
  }

  /** The live bytes decide every key: a copy that restores them holds the same set. */
  lemma {:induction false} SameKeys(t0: Memory, t: Memory, src: Memory, live: set<nat>, mb: Multibit, k: nat)
    requires WellFormed(src, mb) && Live(src, mb) <= live && Restored(t0, t, src, live)
    ensures IsSet(t, mb, k) == IsSet(src, mb, k)
  {
    hide BitAt, Linked, Blocks, Spans, Restored;
    Fewer(t0, t, src, live, Live(src, mb));
    if k < mb.total {
      if mb.Flat() {
        SameFlatBit(t, t, src, Live(src, mb), mb, k);
      } else {
        SameLinked(t, t, src, mb, mb.Max() + 1, k);
      }
    }
  }

  lemma SameFlatBit(t0: Memory, t: Memory, src: Memory, live: set<nat>, mb: Multibit, k: nat)
    requires k < mb.total && mb.Flat() && mb.base + Size(mb) <= |src|
    requires Restored(t0, t, src, live) && Span(mb.base, Size(mb)) <= live
    ensures BitAt(t, mb.base, k) == BitAt(src, mb.base, k)
  {
    hide TestBit;
    assert k / 8 < Size(mb);
    assert mb.base + k / 8 in Span(mb.base, Size(mb));
  }

  lemma {:induction false} SameNext(t0: Memory, t: Memory, src: Memory, live: set<nat>, mb: Multibit, k: nat)
    requires WellFormed(src, mb) && Live(src, mb) <= live && Restored(t0, t, src, live)
    ensures Next(t, mb, k) == Next(src, mb, k)
    decreases mb.total - k
  {
    hide IsSet, Live, Restored, WellFormed;
    if k < mb.total {
      SameKeys(t0, t, src, live, mb, k);
      SameNext(t0, t, src, live, mb, k + 1);
    }
  }

  /** So a restored copy also has the same blocks in use. */
  lemma {:induction false} SameBelow(t0: Memory, t: Memory, src: Memory, addrs: seq<nat>,
                                     base: nat, max: nat, level: nat, key: nat, rem: nat)
    requires level <= max && rem <= 64 && Inside(addrs, 0, |src|)
    requires Restored(t0, t, src, Spans(addrs)) && Addr(base, level, key) in addrs
    requires forall a <- Below(src, base, max, level, key, rem) :: a in addrs
    ensures Below(t, base, max, level, key, rem) == Below(src, base, max, level, key, rem)
    decreases max - level, 64 - rem
  {
    hide Addr, BitAt, Child, Restored, SameBlock, Spans, Inside;
    if level < max && rem < 64 {
      RestoredBlock(t0, t, src, addrs, Addr(base, level, key));
      SameBit(t, Addr(base, level, key), src, Addr(base, level, key), rem);
      if BitAt(src, Addr(base, level, key), rem) {
        SameBelow(t0, t, src, addrs, base, max, level + 1, Child(key, rem), 0);
      }
      SameBelow(t0, t, src, addrs, base, max, level, key, rem + 1);
    }
  }

  lemma {:induction false} SameWords(t0: Memory, t: Memory, src: Memory, addrs: seq<nat>, some: seq<nat>)
    requires Inside(addrs, 0, |src|) && Inside(some, 0, |src|) && Restored(t0, t, src, Spans(addrs))
    requires forall a <- some :: a in addrs
    ensures |t| == |src| && Words(t, some) == Words(src, some)
  {
    hide Restored, Spans;
    SameLength(t0, t, src, Spans(addrs));
    if some != [] {
      RestoredBlock(t0, t, src, addrs, some[0]);
      SameWords(t0, t, src, addrs, some[1..]);
    }
  }

  /** Compressing a restored copy gives the same bytes again. */
  lemma {:induction false} SameEncoded(t0: Memory, t: Memory, src: Memory, live: set<nat>, mb: Multibit)
    requires WellFormed(src, mb) && Live(src, mb) <= live && Restored(t0, t, src, live)
    ensures WellFormed(t, mb) && Encoded(t, mb) == Encoded(src, mb) && Live(t, mb) == Live(src, mb)
    ensures Checked(t, mb) == Checked(src, mb)
  {
    hide Addr, BitAt, Below, Spans, Restored, Words;
    SameLength(t0, t, src, live);
    if mb.Flat() {
      RestoredSlice(t0, t, src, live, mb.base, Size(mb));
    } else {
      var all := Blocks(src, mb);
      assert Inside(all, 0, |src|);
      Fewer(t0, t, src, live, Spans(all));
      SameBelow(t, t, src, all, mb.base, mb.Max(), 0, 0, 0);
      assert Blocks(t, mb) == all;
      SameWords(t, t, src, all, all);
    }
  }
}
