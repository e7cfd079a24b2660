/**
 A multibit as a set of keys: mmbit_clear, mmbit_set, mmbit_unset and mmbit_isset
 of src/util/multibit.h.  Blocks are initialised when a bit above them is first
 set and are never cleared on the way up, so most of a pyramid may hold anything.
 */
module MultibitSet {
  import opened Common
  import opened MultibitCodec

  // ----- bits of bytes

  function SetBit(b: nat, j: nat): nat {
    if j == 0 then (if b % 2 == 1 then b else b + 1) else 2 * SetBit(b / 2, j - 1) + b % 2
  }

  function ClearBit(b: nat, j: nat): nat {
    if j == 0 then (if b % 2 == 1 then b - 1 else b) else 2 * ClearBit(b / 2, j - 1) + b % 2
  }

  function Pow2(n: nat): nat { if n == 0 then 1 else 2 * Pow2(n - 1) }

  lemma {:induction false} SetBitTest(b: nat, j: nat, i: nat)
    ensures TestBit(SetBit(b, j), i) <==> i == j || TestBit(b, i)
  {
    if j > 0 && i > 0 {
      SetBitTest(b / 2, j - 1, i - 1);
      assert SetBit(b, j) / 2 == SetBit(b / 2, j - 1);
    } else if j == 0 && i > 0 {
      assert SetBit(b, j) / 2 == b / 2;
    }
  }

  lemma {:induction false} ClearBitTest(b: nat, j: nat, i: nat)
    ensures TestBit(ClearBit(b, j), i) <==> i != j && TestBit(b, i)
  {
    if j > 0 && i > 0 {
      ClearBitTest(b / 2, j - 1, i - 1);
      assert ClearBit(b, j) / 2 == ClearBit(b / 2, j - 1);
    } else if j == 0 && i > 0 {
      assert ClearBit(b, j) / 2 == b / 2;
    }
  }

  lemma {:induction false} StaysByte(b: nat, j: nat, n: nat)
    requires j < n && b < Pow2(n)
    ensures SetBit(b, j) < Pow2(n) && ClearBit(b, j) < Pow2(n)
  {
    var h, p := b / 2, Pow2(n - 1);
    assert b == 2 * h + b % 2 && h < p;
    if j > 0 {
      StaysByte(h, j - 1, n - 1);
    }
  }

  function WithBit(b: Byte, j: nat): (r: Byte)
    requires j < 8
    ensures forall i: nat :: TestBit(r, i) <==> i == j || TestBit(b, i)
  {
    assert Pow2(8) == 256;
    StaysByte(b, j, 8);
    assert forall i: nat :: TestBit(SetBit(b, j), i) <==> i == j || TestBit(b, i) by {
      forall i: nat ensures TestBit(SetBit(b, j), i) <==> i == j || TestBit(b, i) { SetBitTest(b, j, i); }
    }
    SetBit(b, j)
  }

  function WithoutBit(b: Byte, j: nat): (r: Byte)
    requires j < 8
    ensures forall i: nat :: TestBit(r, i) <==> i != j && TestBit(b, i)
  {
    assert Pow2(8) == 256;
    StaysByte(b, j, 8);
    assert forall i: nat :: TestBit(ClearBit(b, j), i) <==> i != j && TestBit(b, i) by {
      forall i: nat ensures TestBit(ClearBit(b, j), i) <==> i != j && TestBit(b, i) { ClearBitTest(b, j, i); }
    }
    ClearBit(b, j)
  }

  lemma {:induction false} ZeroHasNoBits(i: nat)
    ensures !TestBit(0, i)
  {
    if i > 0 {
      ZeroHasNoBits(i - 1);
    }
  }

  // ----- where a key's blocks are

  /** The block of key's path at level `max + 1 - up`; at `up` 0 the key itself. */
  function Anc(key: nat, up: nat): nat {
    if up == 0 then key else Parent(Anc(key, up - 1))
  }

  /** Block of the path of `key` at a level, and the bit in it. */
  function PathBlock(mb: Multibit, key: nat, level: nat): nat
    requires level <= mb.Max() + 1
  {
    Anc(key, mb.Max() + 1 - level)
  }

  function PathBit(mb: Multibit, key: nat, level: nat): (j: nat)
    requires level <= mb.Max()
    ensures j < 64
  {
    Slot(PathBlock(mb, key, level + 1))
  }

  lemma PathStep(mb: Multibit, key: nat, level: nat)
    requires level <= mb.Max()
    ensures PathBlock(mb, key, level) == Parent(PathBlock(mb, key, level + 1))
  {
  }

  lemma {:induction false} LevelHolds(total: nat)
    ensures total <= Pow64(MaxLevel(total) + 1)
  {
    if total > 64 {
      LevelHolds((total + 63) / 64);
    } else {
      assert Pow64(1) == 64 * Pow64(0);
    }
  }

  lemma {:induction false} AncBound(key: nat, up: nat, levels: nat)
    requires up <= levels && key < Pow64(levels)
    ensures Anc(key, up) < Pow64(levels - up)
  {
    if up > 0 {
      AncBound(key, up - 1, levels);
    }
  }

  lemma PathBound(mb: Multibit, key: nat, level: nat)
    requires key < mb.total && level <= mb.Max() + 1
    ensures PathBlock(mb, key, level) < Pow64(level)
  {
    LevelHolds(mb.total);
    AncBound(key, mb.Max() + 1 - level, mb.Max() + 1);
  }

  lemma {:induction false} RootsApart(l: nat)
    ensures RootOffset(l) + Pow64(l) == RootOffset(l + 1)
  {
    if l > 0 {
      RootsApart(l - 1);
    }
  }

  lemma {:induction false} RootsGrow(a: nat, b: nat)
    requires a <= b
    ensures RootOffset(a) <= RootOffset(b)
    decreases b
  {
    if a < b {
      RootsGrow(a, b - 1);
    }
  }

  /** Different blocks do not overlap. */
  lemma BlocksApart(base: nat, l: nat, k: nat, m: nat, n: nat)
    requires k < Pow64(l) && n < Pow64(m) && (l != m || k != n)
    ensures Addr(base, l, k) + BLOCK <= Addr(base, m, n) || Addr(base, m, n) + BLOCK <= Addr(base, l, k)
  {
    hide RootOffset, Pow64;
    RootsApart(l);
    RootsApart(m);
    if l < m {
      RootsGrow(l + 1, m);
    } else if m < l {
      RootsGrow(m + 1, l);
    }
  }

  // ----- which blocks fit

  /** Blocks of the last level that are in use belong to keys below `total`, and so do the bits on in them. */
  ghost predicate Fitting(m: Memory, mb: Multibit) {
    (forall k: nat :: Linked(m, mb.base, mb.Max(), k) ==> 64 * k < mb.total) &&
    forall k: nat :: OnPath(m, mb, k) ==> k < mb.total
  }

  /** All bits on the way to key `k` are on. */
  predicate OnPath(m: Memory, mb: Multibit, k: nat) { Linked(m, mb.base, mb.Max() + 1, k) }

  lemma {:induction false} LinkedBound(m: Memory, base: nat, level: nat, k: nat)
    requires Linked(m, base, level, k)
    ensures k < Pow64(level)
    decreases level
  {
    if level > 0 {
      LinkedBound(m, base, level - 1, Parent(k));
    }
  }

  lemma BlockFits(mb: Multibit, level: nat, k: nat)
    requires !mb.Flat() && level <= mb.Max() && k < Pow64(level) && (level == mb.Max() ==> 64 * k < mb.total)
    ensures mb.base <= Addr(mb.base, level, k) && Addr(mb.base, level, k) + BLOCK <= mb.base + Size(mb)
  {
    hide RootOffset, Pow64;
    if level < mb.Max() {
      RootsApart(level);
      RootsGrow(level + 1, mb.Max());
    }
  }

  lemma {:induction false} BelowFits(m: Memory, mb: Multibit, level: nat, key: nat, rem: nat)
    requires !mb.Flat() && Fitting(m, mb) && level <= mb.Max() && rem <= 64 && Linked(m, mb.base, level, key)
    ensures Inside(Below(m, mb.base, mb.Max(), level, key, rem), mb.base, mb.base + Size(mb))
    decreases mb.Max() - level, 64 - rem
  {
    hide Addr, BitAt, Child, Parent, Slot, Size, Fitting, Multibit.Max;
    if level < mb.Max() && rem < 64 {
      BelowFits(m, mb, level, key, rem + 1);
      if BitAt(m, Addr(mb.base, level, key), rem) {
        var c := Child(key, rem);
        ChildOf(key, rem);
        assert Linked(m, mb.base, level + 1, c);
        BelowFits(m, mb, level + 1, c, 0);
        LinkedFits(m, mb, level + 1, c);
      }
    }
  }

  lemma LinkedFits(m: Memory, mb: Multibit, level: nat, k: nat)
    requires !mb.Flat() && Fitting(m, mb) && level <= mb.Max() && Linked(m, mb.base, level, k)
    ensures mb.base <= Addr(mb.base, level, k) && Addr(mb.base, level, k) + BLOCK <= mb.base + Size(mb)
  {
    hide Addr, Size;
    LinkedBound(m, mb.base, level, k);
    BlockFits(mb, level, k);
  }

  /** What the codec asks of a multibit is that its last level names no key past the end. */
  lemma {:induction false} FittingIsWellFormed(m: Memory, mb: Multibit)
    requires mb.base + Size(mb) <= |m| && (!mb.Flat() ==> Fitting(m, mb))
    ensures WellFormed(m, mb)
  {
    hide Size, Fitting, Below;
    if !mb.Flat() {
      LinkedFits(m, mb, 0, 0);
      BelowFits(m, mb, 0, 0, 0);
    }
  }

  // ----- writing one block

  lemma OtherBlock(m: Memory, at: nat, data: Memory, a: nat, j: nat)
    requires at + |data| <= |m| && j < 64 && (a + BLOCK <= at || at + |data| <= a)
    ensures BitAt(Splice(m, at, data), a, j) == BitAt(m, a, j)
  {
    hide TestBit;
  }

  /** One bit of the block at `a` switched on, or off. */
  function Marked(m: Memory, a: nat, j: nat): (r: Memory)
    requires a + BLOCK <= |m| && j < 64
  {
    Splice(m, a + j / 8, [WithBit(m[a + j / 8], j % 8)])
  }

  function Unmarked(m: Memory, a: nat, j: nat): (r: Memory)
    requires a + BLOCK <= |m| && j < 64
  {
    Splice(m, a + j / 8, [WithoutBit(m[a + j / 8], j % 8)])
  }

  lemma SamePlace(i: nat, j: nat)
    ensures i / 8 == j / 8 && i % 8 == j % 8 ==> i == j
  {
  }

  lemma MarkedBit(m: Memory, a: nat, j: nat, i: nat)
    requires a + BLOCK <= |m| && j < 64 && i < 64
    ensures BitAt(Marked(m, a, j), a, i) <==> i == j || BitAt(m, a, i)
    ensures BitAt(Unmarked(m, a, j), a, i) <==> i != j && BitAt(m, a, i)
  {
    hide TestBit, WithBit, WithoutBit;
    SamePlace(i, j);
  }

  /** A block with the one bit `j`. */
  function SingleBlock(j: nat): (r: Memory)
    requires j < 64
    ensures |r| == BLOCK
  {
    seq(BLOCK, i => if i == j / 8 then WithBit(0, j % 8) else 0)
  }

  lemma SingleBlockBit(m: Memory, a: nat, j: nat, i: nat)
    requires a + BLOCK <= |m| && j < 64 && i < 64
    ensures BitAt(Splice(m, a, SingleBlock(j)), a, i) <==> i == j
  {
    hide TestBit, WithBit;
    var t := Splice(m, a, SingleBlock(j));
    assert t[a + i / 8] == SingleBlock(j)[i / 8];
    SamePlace(i, j);
    ZeroHasNoBits(i % 8);
  }

  lemma ZeroBlockBit(m: Memory, a: nat, i: nat)
    requires a + BLOCK <= |m| && i < 64
    ensures !BitAt(Splice(m, a, seq(BLOCK, _ => 0)), a, i)
  {
    hide TestBit;
    var z: Memory := seq(BLOCK, _ => 0);
    assert Splice(m, a, z)[a + i / 8] == z[i / 8];
    ZeroHasNoBits(i % 8);
  }

  // ----- mmbit_set

  ghost predicate Unchanged(m: Memory, t: Memory, mb: Multibit) {
    |t| == |m| && forall i: nat :: i < |m| && !(mb.base <= i < mb.base + Size(mb)) ==> t[i] == m[i]
  }

  /** A bit after the path of `key` was marked at level d and given fresh blocks at the levels after it,
      up to `upto`. */
  ghost predicate ExpectedBit(m: Memory, mb: Multibit, key: nat, d: nat, upto: nat, l: nat, k: nat, j: nat)
    requires d <= upto <= mb.Max() && l <= mb.Max()
  {
    if l == d && k == PathBlock(mb, key, l) then j == PathBit(mb, key, l) || BitAt(m, Addr(mb.base, l, k), j)
    else if d < l <= upto && k == PathBlock(mb, key, l) then j == PathBit(mb, key, l)
    else BitAt(m, Addr(mb.base, l, k), j)
  }

  ghost predicate Written(m: Memory, t: Memory, mb: Multibit, key: nat, d: nat, upto: nat)
    requires d <= upto <= mb.Max()
  {
    Unchanged(m, t, mb) &&
    forall l: nat, k: nat, j: nat :: l <= mb.Max() && k < Pow64(l) && j < 64 ==>
      (BitAt(t, Addr(mb.base, l, k), j) <==> ExpectedBit(m, mb, key, d, upto, l, k, j))
  }

  lemma PathFits(m: Memory, mb: Multibit, key: nat, level: nat)
    requires !mb.Flat() && key < mb.total && level <= mb.Max()
    ensures var a := Addr(mb.base, level, PathBlock(mb, key, level));
            mb.base <= a && a + BLOCK <= mb.base + Size(mb)
  {
    hide Addr, Size, Pow64;
    PathBound(mb, key, level);
    if level == mb.Max() {
      assert PathBlock(mb, key, level) == Parent(Anc(key, 0)) == Parent(key);
      assert 64 * Parent(key) <= key;
    }
    BlockFits(mb, level, PathBlock(mb, key, level));
  }

  lemma FirstMark(m: Memory, mb: Multibit, key: nat, d: nat)
    requires !mb.Flat() && key < mb.total && d <= mb.Max() && mb.base + Size(mb) <= |m|
    ensures var a := Addr(mb.base, d, PathBlock(mb, key, d));
            a + BLOCK <= |m| && Written(m, Marked(m, a, PathBit(mb, key, d)), mb, key, d, d)
  {
    hide Addr, BitAt, Pow64, Size, PathBlock, PathBit, WithBit;
    PathFits(m, mb, key, d);
    PathBound(mb, key, d);
    var p, b := PathBlock(mb, key, d), PathBit(mb, key, d);
    var a := Addr(mb.base, d, p);
    var t := Marked(m, a, b);
    forall l: nat, k: nat, j: nat | l <= mb.Max() && k < Pow64(l) && j < 64
      ensures BitAt(t, Addr(mb.base, l, k), j) <==> ExpectedBit(m, mb, key, d, d, l, k, j)
    {
      if l == d && k == p {
        MarkedBit(m, a, b, j);
      } else {
        BlocksApart(mb.base, l, k, d, p);
        OtherBlock(m, a + b / 8, [WithBit(m[a + b / 8], b % 8)], Addr(mb.base, l, k), j);
      }
    }
  }

  lemma NextFresh(m: Memory, t: Memory, mb: Multibit, key: nat, d: nat, level: nat)
    requires !mb.Flat() && key < mb.total && d < level <= mb.Max() && mb.base + Size(mb) <= |m|
    requires Written(m, t, mb, key, d, level - 1)
    ensures var a := Addr(mb.base, level, PathBlock(mb, key, level));
            a + BLOCK <= |t| && Written(m, Splice(t, a, SingleBlock(PathBit(mb, key, level))), mb, key, d, level)
  {
    hide Addr, BitAt, Pow64, Size, PathBlock, PathBit, SingleBlock;
    PathFits(m, mb, key, level);
    PathBound(mb, key, level);
    var p, b := PathBlock(mb, key, level), PathBit(mb, key, level);
    var a := Addr(mb.base, level, p);
    var u := Splice(t, a, SingleBlock(b));
    forall l: nat, k: nat, j: nat | l <= mb.Max() && k < Pow64(l) && j < 64
      ensures BitAt(u, Addr(mb.base, l, k), j) <==> ExpectedBit(m, mb, key, d, level, l, k, j)
    {
      if l == level && k == p {
        SingleBlockBit(t, a, b, j);
      } else {
        BlocksApart(mb.base, l, k, level, p);
        OtherBlock(t, a, SingleBlock(b), Addr(mb.base, l, k), j);
      }
    }
  }

  /** After a set: what was linked still is, and so is the path of the key. */
  lemma {:induction false} LinkedAfterSet(m: Memory, t: Memory, mb: Multibit, key: nat, d: nat, l: nat, k: nat)
    requires key < mb.total && d <= mb.Max() && l <= mb.Max() + 1 && k < Pow64(l)
    requires Written(m, t, mb, key, d, mb.Max())
    requires Linked(m, mb.base, d, PathBlock(mb, key, d))
    requires !BitAt(m, Addr(mb.base, d, PathBlock(mb, key, d)), PathBit(mb, key, d))
    ensures Linked(t, mb.base, l, k) <==> Linked(m, mb.base, l, k) || (l > d && k == PathBlock(mb, key, l))
    ensures l > d ==> !Linked(m, mb.base, l, PathBlock(mb, key, l))
    decreases l
  {
    hide Addr, BitAt, Parent, Slot, PathBlock, PathBit, Unchanged;
    if l > 0 {
      ParentBound(k, l);
      LinkedAfterSet(m, t, mb, key, d, l - 1, Parent(k));
      PathStep(mb, key, l - 1);
      BitIsSlot(mb, key, l - 1);
      SameKey(k, PathBlock(mb, key, l));
      assert BitAt(t, Addr(mb.base, l - 1, Parent(k)), Slot(k)) <==>
             ExpectedBit(m, mb, key, d, mb.Max(), l - 1, Parent(k), Slot(k));
    }
  }

  lemma ParentBound(k: nat, l: nat)
    requires l > 0 && k < Pow64(l)
    ensures Parent(k) < Pow64(l - 1)
  {
  }

  lemma BitIsSlot(mb: Multibit, key: nat, level: nat)
    requires level <= mb.Max()
    ensures PathBit(mb, key, level) == Slot(PathBlock(mb, key, level + 1))
  {
  }

  lemma SameKey(a: nat, b: nat)
    ensures Parent(a) == Parent(b) && Slot(a) == Slot(b) ==> a == b
  {
  }

  /** The whole key is the last entry of its path. */
  lemma PathEnds(mb: Multibit, key: nat)
    ensures PathBlock(mb, key, mb.Max() + 1) == key && PathBlock(mb, key, mb.Max()) == Parent(key)
  {
    assert Anc(key, 1) == Parent(Anc(key, 0));
  }

  lemma SetResult(m: Memory, t: Memory, mb: Multibit, key: nat, d: nat)
    requires !mb.Flat() && WellFormed(m, mb) && Fitting(m, mb) && key < mb.total && d <= mb.Max()
    requires Written(m, t, mb, key, d, mb.Max())
    requires Linked(m, mb.base, d, PathBlock(mb, key, d))
    requires !BitAt(m, Addr(mb.base, d, PathBlock(mb, key, d)), PathBit(mb, key, d))
    ensures Fitting(t, mb) && !IsSet(m, mb, key)
    ensures forall k: nat :: IsSet(t, mb, k) <==> IsSet(m, mb, k) || k == key
  {
    hide Written, BitAt, Addr, PathBlock, PathBit, Linked, WellFormed;
    PathEnds(mb, key);
    LevelHolds(mb.total);
    PathBound(mb, key, mb.Max() + 1);
    LinkedAfterSet(m, t, mb, key, d, mb.Max() + 1, key);
    forall k: nat ensures IsSet(t, mb, k) <==> IsSet(m, mb, k) || k == key {
      if k < mb.total {
        LinkedAfterSet(m, t, mb, key, d, mb.Max() + 1, k);
      }
    }
    forall k: nat | Linked(t, mb.base, mb.Max(), k) ensures 64 * k < mb.total {
      LinkedBound(t, mb.base, mb.Max(), k);
      LinkedAfterSet(m, t, mb, key, d, mb.Max(), k);
      assert 64 * Parent(key) <= key;
    }
    forall k: nat | OnPath(t, mb, k) ensures k < mb.total {
      LinkedBound(t, mb.base, mb.Max() + 1, k);
      LinkedAfterSet(m, t, mb, key, d, mb.Max() + 1, k);
      assert k == key || OnPath(m, mb, k);
    }
  }

  /** mmbit_set. */
  method Set(bits: array<Byte>, mb: Multibit, key: nat) returns (was: bool)
    requires key < mb.total && Valid(bits[..], mb)
    modifies bits
    ensures Valid(bits[..], mb) && Unchanged(old(bits[..]), bits[..], mb)
    ensures was == IsSet(old(bits[..]), mb, key)
    ensures forall k: nat :: IsSet(bits[..], mb, k) <==> IsSet(old(bits[..]), mb, k) || k == key
  {
    if mb.Flat() {
      was := SetFlat(bits, mb, key);
    } else {
      was := SetBig(bits, mb, key);
    }
  }

  /** What clearing, setting and unsetting keep. */
  ghost predicate Valid(m: Memory, mb: Multibit) {
    WellFormed(m, mb) && (!mb.Flat() ==> Fitting(m, mb))
  }

  lemma PathRoot(m: Memory, mb: Multibit, key: nat)
    requires key < mb.total
    ensures Linked(m, mb.base, 0, PathBlock(mb, key, 0))
  {
    PathBound(mb, key, 0);
  }

  lemma InStructure(m: Memory, mb: Multibit)
    requires WellFormed(m, mb)
    ensures mb.base + Size(mb) <= |m|
  {
  }

  lemma ByteOfBit(m: Memory, a: nat, j: nat)
    requires a + BLOCK <= |m| && j < 64
    ensures a + j / 8 < |m| && (BitAt(m, a, j) <==> TestBit(m[a + j / 8], j % 8))
  {
  }

  lemma PathLinked(m: Memory, mb: Multibit, key: nat, level: nat)
    requires level <= mb.Max() && Linked(m, mb.base, level, PathBlock(mb, key, level))
    requires BitAt(m, Addr(mb.base, level, PathBlock(mb, key, level)), PathBit(mb, key, level))
    ensures Linked(m, mb.base, level + 1, PathBlock(mb, key, level + 1))
  {
    PathStep(mb, key, level);
  }

  lemma Same(m: Memory, mb: Multibit)
    ensures Unchanged(m, m, mb)
  {
  }

  lemma WrittenUnchanged(m: Memory, t: Memory, mb: Multibit, key: nat, d: nat)
    requires d <= mb.Max() && Written(m, t, mb, key, d, mb.Max())
    ensures Unchanged(m, t, mb) && |t| == |m|
  {
  }

  method SetFlat(bits: array<Byte>, mb: Multibit, key: nat) returns (was: bool)
    requires mb.Flat() && key < mb.total && Valid(bits[..], mb)
    modifies bits
    ensures Valid(bits[..], mb) && Unchanged(old(bits[..]), bits[..], mb)
    ensures was == IsSet(old(bits[..]), mb, key)
    ensures forall k: nat :: IsSet(bits[..], mb, k) <==> IsSet(old(bits[..]), mb, k) || k == key
  {
    hide TestBit, WithBit;
    var at := mb.base + key / 8;
    was := TestBit(bits[at], key % 8);
    bits[at] := WithBit(bits[at], key % 8);
    forall k: nat ensures IsSet(bits[..], mb, k) <==> IsSet(old(bits[..]), mb, k) || k == key {
      SamePlace(k, key);
    }
  }

  /** mmbit_set_big. */
  method SetBig(bits: array<Byte>, mb: Multibit, key: nat) returns (was: bool)
    requires !mb.Flat() && key < mb.total && Valid(bits[..], mb)
    modifies bits
    ensures Valid(bits[..], mb) && Unchanged(old(bits[..]), bits[..], mb)
    ensures was == IsSet(old(bits[..]), mb, key)
    ensures forall k: nat :: IsSet(bits[..], mb, k) <==> IsSet(old(bits[..]), mb, k) || k == key
  {
    hide Written, BitAt, Addr, Fitting, Size, SingleBlock, WithBit, Unchanged, Linked, PathBlock, PathBit, Splice;
    var level: nat := 0;
    ghost var m := bits[..];
    PathRoot(m, mb, key);
    while true
      invariant level <= mb.Max() && bits[..] == m
      invariant Linked(m, mb.base, level, PathBlock(mb, key, level))
      decreases mb.Max() - level
    {
      var a, j := Addr(mb.base, level, PathBlock(mb, key, level)), PathBit(mb, key, level);
      PathFits(m, mb, key, level);
      InStructure(m, mb);
      ByteOfBit(m, a, j);
      if !TestBit(bits[a + j / 8], j % 8) {
        ghost var d := level;
        FirstMark(m, mb, key, d);
        Store(bits, a + j / 8, [WithBit(bits[a + j / 8], j % 8)]);
        while level != mb.Max()
          invariant d <= level <= mb.Max() && Written(m, bits[..], mb, key, d, level)
        {
          level := level + 1;
          NextFresh(m, bits[..], mb, key, d, level);
          Store(bits, Addr(mb.base, level, PathBlock(mb, key, level)), SingleBlock(PathBit(mb, key, level)));
        }
        SetResult(m, bits[..], mb, key, d);
        WrittenUnchanged(m, bits[..], mb, key, d);
        FittingIsWellFormed(bits[..], mb);
        return false;
      }
      PathLinked(m, mb, key, level);
      if level == mb.Max() {
        Same(m, mb);
        PathEnds(mb, key);
        return true;
      }
      level := level + 1;
    }
  }

  // ----- mmbit_isset, mmbit_unset and mmbit_clear

  /** mmbit_isset. */
  method Test(bits: array<Byte>, mb: Multibit, key: nat) returns (r: bool)
    requires key < mb.total && Valid(bits[..], mb)
    ensures r == IsSet(bits[..], mb, key)
  {
    if mb.Flat() {
      return TestBit(bits[mb.base + key / 8], key % 8);
    }
    hide BitAt, Addr, Fitting, Size, Linked, PathBlock, PathBit;
    ghost var m := bits[..];
    PathRoot(m, mb, key);
    for level := 0 to mb.Max() + 1
      invariant Linked(m, mb.base, level, PathBlock(mb, key, level))
    {
      var a, j := Addr(mb.base, level, PathBlock(mb, key, level)), PathBit(mb, key, level);
      PathFits(m, mb, key, level);
      InStructure(m, mb);
      ByteOfBit(m, a, j);
      if !TestBit(bits[a + j / 8], j % 8) {
        BrokenPath(m, mb, key, level, mb.Max() + 1);
        PathEnds(mb, key);
        return false;
      }
      PathLinked(m, mb, key, level);
    }
    PathEnds(mb, key);
    return true;
  }

  lemma {:induction false} BrokenPath(m: Memory, mb: Multibit, key: nat, level: nat, l: nat)
    requires level < l <= mb.Max() + 1
    requires !BitAt(m, Addr(mb.base, level, PathBlock(mb, key, level)), PathBit(mb, key, level))
    ensures !Linked(m, mb.base, l, PathBlock(mb, key, l))
    decreases l
  {
    PathStep(mb, key, l - 1);
    if l - 1 > level {
      BrokenPath(m, mb, key, level, l - 1);
    }
  }

  /** The one bit of the last level that stands for `key` is off, all else as before. */
  ghost predicate Dropped(m: Memory, t: Memory, mb: Multibit, key: nat) {
    Unchanged(m, t, mb) &&
    forall l: nat, k: nat, j: nat :: l <= mb.Max() && k < Pow64(l) && j < 64 ==>
      (BitAt(t, Addr(mb.base, l, k), j) <==> BitAt(m, Addr(mb.base, l, k), j) && !IsLast(mb, key, l, k, j))
  }

  predicate IsLast(mb: Multibit, key: nat, l: nat, k: nat, j: nat) {
    l == mb.Max() && k == PathBlock(mb, key, l) && j == PathBit(mb, key, l)
  }

  lemma DropLast(m: Memory, mb: Multibit, key: nat)
    requires !mb.Flat() && key < mb.total && mb.base + Size(mb) <= |m|
    ensures var a := Addr(mb.base, mb.Max(), PathBlock(mb, key, mb.Max()));
            a + BLOCK <= |m| && Dropped(m, Unmarked(m, a, PathBit(mb, key, mb.Max())), mb, key)
  {
    hide Addr, BitAt, Pow64, Size, PathBlock, PathBit, WithoutBit, Multibit.Max;
    var max := mb.Max();
    PathFits(m, mb, key, max);
    PathBound(mb, key, max);
    var p, b := PathBlock(mb, key, max), PathBit(mb, key, max);
    var a := Addr(mb.base, max, p);
    var t := Unmarked(m, a, b);
    forall l: nat, k: nat, j: nat | l <= max && k < Pow64(l) && j < 64
      ensures BitAt(t, Addr(mb.base, l, k), j) <==> BitAt(m, Addr(mb.base, l, k), j) && !IsLast(mb, key, l, k, j)
    {
      if l == max && k == p {
        MarkedBit(m, a, b, j);
      } else {
        BlocksApart(mb.base, l, k, max, p);
        OtherBlock(m, a + b / 8, [WithoutBit(m[a + b / 8], b % 8)], Addr(mb.base, l, k), j);
      }
    }
  }

  /** Blocks stay in use though their last key is gone. */
  lemma {:induction false} LinkedAfterUnset(m: Memory, t: Memory, mb: Multibit, key: nat, l: nat, k: nat)
    requires l <= mb.Max() + 1 && k < Pow64(l) && Dropped(m, t, mb, key)
    ensures Linked(t, mb.base, l, k) <==> Linked(m, mb.base, l, k) && !(l == mb.Max() + 1 && k == key)
    decreases l
  {
    hide Addr, BitAt, Parent, Slot, Unchanged, Multibit.Max, PathBlock;
    if l > 0 {
      ParentBound(k, l);
      LinkedAfterUnset(m, t, mb, key, l - 1, Parent(k));
      PathEnds(mb, key);
      SameKey(k, key);
      assert BitAt(t, Addr(mb.base, l - 1, Parent(k)), Slot(k)) <==>
             BitAt(m, Addr(mb.base, l - 1, Parent(k)), Slot(k)) && !IsLast(mb, key, l - 1, Parent(k), Slot(k));
    }
  }

  lemma UnsetResult(m: Memory, t: Memory, mb: Multibit, key: nat)
    requires !mb.Flat() && Fitting(m, mb) && key < mb.total && Dropped(m, t, mb, key)
    ensures Fitting(t, mb) && forall k: nat :: IsSet(t, mb, k) <==> IsSet(m, mb, k) && k != key
  {
    hide Dropped, Linked;
    LevelHolds(mb.total);
    forall k: nat ensures IsSet(t, mb, k) <==> IsSet(m, mb, k) && k != key {
      if k < mb.total {
        LinkedAfterUnset(m, t, mb, key, mb.Max() + 1, k);
      }
    }
    forall k: nat | Linked(t, mb.base, mb.Max(), k) ensures 64 * k < mb.total {
      LinkedBound(t, mb.base, mb.Max(), k);
      LinkedAfterUnset(m, t, mb, key, mb.Max(), k);
    }
    forall k: nat | OnPath(t, mb, k) ensures k < mb.total {
      LinkedBound(t, mb.base, mb.Max() + 1, k);
      LinkedAfterUnset(m, t, mb, key, mb.Max() + 1, k);
      assert OnPath(m, mb, k);
    }
  }

  /** mmbit_unset. */
  method Unset(bits: array<Byte>, mb: Multibit, key: nat)
    requires key < mb.total && Valid(bits[..], mb)
    modifies bits
    ensures Valid(bits[..], mb) && Unchanged(old(bits[..]), bits[..], mb)
    ensures forall k: nat :: IsSet(bits[..], mb, k) <==> IsSet(old(bits[..]), mb, k) && k != key
  {
    if mb.Flat() {
      UnsetFlat(bits, mb, key);
    } else {
      UnsetBig(bits, mb, key);
    }
  }

  method UnsetFlat(bits: array<Byte>, mb: Multibit, key: nat)
    requires mb.Flat() && key < mb.total && Valid(bits[..], mb)
    modifies bits
    ensures Valid(bits[..], mb) && Unchanged(old(bits[..]), bits[..], mb)
    ensures forall k: nat :: IsSet(bits[..], mb, k) <==> IsSet(old(bits[..]), mb, k) && k != key
  {
    hide TestBit, WithoutBit;
    var at := mb.base + key / 8;
    bits[at] := WithoutBit(bits[at], key % 8);
    forall k: nat ensures IsSet(bits[..], mb, k) <==> IsSet(old(bits[..]), mb, k) && k != key {
      SamePlace(k, key);
    }
  }

  /** mmbit_unset_big. */
  method UnsetBig(bits: array<Byte>, mb: Multibit, key: nat)
    requires !mb.Flat() && key < mb.total && Valid(bits[..], mb)
    modifies bits
    ensures Valid(bits[..], mb) && Unchanged(old(bits[..]), bits[..], mb)
    ensures forall k: nat :: IsSet(bits[..], mb, k) <==> IsSet(old(bits[..]), mb, k) && k != key
  {
    hide BitAt, Addr, Fitting, Size, Linked, PathBlock, PathBit, WithoutBit, Dropped, Unchanged, Splice;
    ghost var m := bits[..];
    PathRoot(m, mb, key);
    var level: nat := 0;
    while true
      invariant level <= mb.Max() && bits[..] == m && Linked(m, mb.base, level, PathBlock(mb, key, level))
      decreases mb.Max() - level
    {
      var a, j := Addr(mb.base, level, PathBlock(mb, key, level)), PathBit(mb, key, level);
      PathFits(m, mb, key, level);
      InStructure(m, mb);
      ByteOfBit(m, a, j);
      if !TestBit(bits[a + j / 8], j % 8) {
        BrokenPath(m, mb, key, level, mb.Max() + 1);
        PathEnds(mb, key);
        Same(m, mb);
        return;
      }
      PathLinked(m, mb, key, level);
      if level == mb.Max() {
        DropLast(m, mb, key);
        Store(bits, a + j / 8, [WithoutBit(bits[a + j / 8], j % 8)]);
        UnsetResult(m, bits[..], mb, key);
        DroppedUnchanged(m, bits[..], mb, key);
        FittingIsWellFormed(bits[..], mb);
        return;
      }
      level := level + 1;
    }
  }

  lemma DroppedUnchanged(m: Memory, t: Memory, mb: Multibit, key: nat)
    requires Dropped(m, t, mb, key)
    ensures Unchanged(m, t, mb) && |t| == |m|
  {
  }

  /** mmbit_clear, of memory that may hold anything: the root block is enough. */
  method Clear(bits: array<Byte>, mb: Multibit)
    requires mb.base + Size(mb) <= bits.Length
    modifies bits
    ensures Valid(bits[..], mb) && Unchanged(old(bits[..]), bits[..], mb)
    ensures forall k: nat :: !IsSet(bits[..], mb, k)
  {
    hide TestBit, Linked, BitAt, Fitting, RootOffset, MaxLevel, Below;
    if mb.Flat() {
      Store(bits, mb.base, seq(Size(mb), _ => 0));
      FlatCleared(old(bits[..]), mb);
    } else {
      Store(bits, mb.base, seq(BLOCK, _ => 0));
      RootCleared(old(bits[..]), mb);
      FittingIsWellFormed(bits[..], mb);
    }
  }

  lemma FlatCleared(m: Memory, mb: Multibit)
    requires mb.Flat() && mb.base + Size(mb) <= |m|
    ensures var t := Splice(m, mb.base, seq(Size(mb), _ => 0));
            Valid(t, mb) && Unchanged(m, t, mb) && forall k: nat :: !IsSet(t, mb, k)
  {
    hide TestBit;
    var z: Memory := seq(Size(mb), _ => 0);
    var t := Splice(m, mb.base, z);
    forall k: nat | k < mb.total ensures !BitAt(t, mb.base, k) {
      assert t[mb.base + k / 8] == z[k / 8];
      ZeroHasNoBits(k % 8);
    }
  }

  lemma RootCleared(m: Memory, mb: Multibit)
    requires !mb.Flat() && mb.base + Size(mb) <= |m|
    ensures BLOCK <= Size(mb)
    ensures var t := Splice(m, mb.base, seq(BLOCK, _ => 0));
            Fitting(t, mb) && Unchanged(m, t, mb) && forall k: nat :: !IsSet(t, mb, k)
  {
    hide BitAt, RootOffset, Linked;
    assert BLOCK <= Size(mb);
    var t := Splice(m, mb.base, seq(BLOCK, _ => 0));
    forall l: nat, k: nat | l > 0 ensures !Linked(t, mb.base, l, k) {
      NothingLinked(m, mb.base, l, k);
    }
    assert mb.Max() > 0;
  }

  lemma {:induction false} NothingLinked(m: Memory, base: nat, l: nat, k: nat)
    requires base + BLOCK <= |m| && l > 0
    ensures !Linked(Splice(m, base, seq(BLOCK, _ => 0)), base, l, k)
    decreases l
  {
    hide BitAt;
    if l == 1 {
      assert Addr(base, 0, 0) == base;
      ZeroBlockBit(m, base, Slot(k));
    } else {
      NothingLinked(m, base, l - 1, Parent(k));
    }
  }
}
