/**
 mmbit_all of src/util/multibit.h: whether every key is on, decided level by level
 from the top of the pyramid instead of key by key.
 */
module MultibitAll {
  import opened Common
  import opened MultibitCodec
  import opened MultibitSet

  /** The first n bits at `a` are on. */
  ghost predicate Ones(m: Memory, a: nat, n: nat) {
    forall j: nat :: j < n ==> BitAt(m, a, j)
  }

  lemma BitInBlock(m: Memory, a: nat, i: nat, j: nat)
    ensures BitAt(m, a + BLOCK * i, j) == BitAt(m, a, 64 * i + j)
  {
    assert (64 * i + j) / 8 == 8 * i + j / 8 && (64 * i + j) % 8 == j % 8;
  }

  /** The first n bits of one block, compared with a mask. */
  method BlockOnes(m: Memory, a: nat, n: nat) returns (r: bool)
    requires n <= 64
    ensures r <==> Ones(m, a, n)
  {
    for j := 0 to n
      invariant Ones(m, a, j)
    {
      if !BitAt(m, a, j) {
        return false;
      }
    }
    return true;
  }

  lemma OnesSplit(m: Memory, a: nat, i: nat, n: nat)
    requires 64 * i <= n
    ensures Ones(m, a, n) <==> Ones(m, a, 64 * i) && Ones(m, a + BLOCK * i, n - 64 * i)
  {
    hide BitAt;
    if Ones(m, a, n) {
      var b, rest := a + BLOCK * i, n - 64 * i;
      forall j: nat | j < rest ensures BitAt(m, b, j) {
        BitInBlock(m, a, i, j);
      }
    }
    if Ones(m, a, 64 * i) && Ones(m, a + BLOCK * i, n - 64 * i) {
      forall j: nat | j < n ensures BitAt(m, a, j) {
        if j >= 64 * i {
          BitInBlock(m, a, i, j - 64 * i);
        }
      }
    }
  }

  /** One level: all full blocks, then the runt at the end; mmbit_all_flat takes its runt byte by byte. */
  method LevelOnes(m: Memory, a: nat, n: nat) returns (r: bool)
    ensures r <==> Ones(m, a, n)
  {
    hide Ones;
    var block, left: nat := 0, n;
    NoBits(m, a);
    while left >= 64
      invariant 64 * block + left == n && Ones(m, a, 64 * block)
      decreases left
    {
      var full := BlockOnes(m, a + BLOCK * block, 64);
      OnesSplit(m, a, block, 64 * block + 64);
      OnesSplit(m, a, block + 1, n);
      if !full {
        return false;
      }
      block := block + 1;
      left := left - 64;
    }
    r := BlockOnes(m, a + BLOCK * block, left);
    OnesSplit(m, a, block, n);
  }

  lemma NoBits(m: Memory, a: nat)
    ensures Ones(m, a, 0)
  {
  }

  /** The keys of the next level up that cover `n` keys: n over 64, rounded up. */
  function Covering(n: nat, up: nat): nat {
    if up == 0 then n else (Covering(n, up - 1) + 63) / 64
  }

  /** In the source's terms: the total rounded up to a multiple of 64^up, and divided by it. */
  lemma {:induction false} CoveringIsRoundedUp(n: nat, up: nat, b: nat)
    ensures b < Covering(n, up) <==> b * Pow64(up) < n
    decreases up
  {
    if up == 0 {
      assert b * 1 == b;
    } else {
      CoveringIsRoundedUp(n, up - 1, 64 * b);
      var p := Pow64(up - 1);
      assert (64 * b) * p == b * (64 * p);
      assert b < (Covering(n, up - 1) + 63) / 64 <==> 64 * b < Covering(n, up - 1);
    }
  }

  /** Bits of the level that are in use when every key is on. */
  function LevelBits(mb: Multibit, level: nat): nat
    requires level <= mb.Max()
  {
    Covering(mb.total, mb.Max() - level)
  }

  /** Every covered entry is on the path of some key. */
  lemma {:induction false} HasKey(total: nat, up: nat, b: nat) returns (k: nat)
    requires b < Covering(total, up)
    ensures k < total && Anc(k, up) == b
    decreases up
  {
    if up == 0 {
      k := b;
    } else {
      k := HasKey(total, up - 1, 64 * b);
      assert Parent(64 * b) == b;
    }
  }

  lemma {:induction false} AncCovered(total: nat, up: nat, k: nat)
    requires k < total
    ensures Anc(k, up) < Covering(total, up)
    decreases up
  {
    if up > 0 {
      AncCovered(total, up - 1, k);
    }
  }

  /** Bit b of a level is bit Slot(b) of block Parent(b) there. */
  lemma LevelBit(m: Memory, base: nat, level: nat, b: nat)
    ensures BitAt(m, Addr(base, level, Parent(b)), Slot(b)) == BitAt(m, Addr(base, level, 0), b)
  {
    BitInBlock(m, Addr(base, level, 0), Parent(b), Slot(b));
    assert Addr(base, level, Parent(b)) == Addr(base, level, 0) + BLOCK * Parent(b);
    assert 64 * Parent(b) + Slot(b) == b;
  }

  ghost predicate AllOn(m: Memory, mb: Multibit) {
    forall k: nat :: k < mb.total ==> IsSet(m, mb, k)
  }

  ghost predicate LevelOn(m: Memory, mb: Multibit, level: nat)
    requires level <= mb.Max()
  {
    Ones(m, Addr(mb.base, level, 0), LevelBits(mb, level))
  }

  /** If every level is full down to one, every path is linked that far. */
  lemma {:induction false} FullLevelsLink(m: Memory, mb: Multibit, k: nat, l: nat)
    requires k < mb.total && l <= mb.Max() + 1 && forall i: nat :: i < l ==> LevelOn(m, mb, i)
    ensures Linked(m, mb.base, l, PathBlock(mb, k, l))
    decreases l
  {
    hide BitAt, Addr;
    if l == 0 {
      PathRoot(m, mb, k);
    } else {
      FullLevelsLink(m, mb, k, l - 1);
      var b := PathBlock(mb, k, l);
      AncCovered(mb.total, mb.Max() + 1 - l, k);
      assert LevelOn(m, mb, l - 1);
      LevelBit(m, mb.base, l - 1, b);
      PathStep(mb, k, l - 1);
    }
  }

  lemma {:induction false} LinkedAbove(m: Memory, mb: Multibit, k: nat, l: nat)
    requires l <= mb.Max() + 1 && Linked(m, mb.base, mb.Max() + 1, k)
    ensures Linked(m, mb.base, l, PathBlock(mb, k, l))
    decreases mb.Max() + 1 - l
  {
    PathEnds(mb, k);
    if l <= mb.Max() {
      LinkedAbove(m, mb, k, l + 1);
      PathStep(mb, k, l);
    }
  }

  /** Every key is on exactly when every level is full. */
  lemma AllIsLevels(m: Memory, mb: Multibit)
    requires !mb.Flat()
    ensures AllOn(m, mb) <==> forall l: nat :: l <= mb.Max() ==> LevelOn(m, mb, l)
  {
    hide Linked, BitAt, Addr;
    if forall l: nat :: l <= mb.Max() ==> LevelOn(m, mb, l) {
      forall k: nat | k < mb.total ensures IsSet(m, mb, k) {
        FullLevelsLink(m, mb, k, mb.Max() + 1);
        PathEnds(mb, k);
      }
    }
    if AllOn(m, mb) {
      forall l: nat | l <= mb.Max() ensures LevelOn(m, mb, l) {
        forall b: nat | b < LevelBits(mb, l) ensures BitAt(m, Addr(mb.base, l, 0), b) {
          KeyLightsLevel(m, mb, l, b);
        }
      }
    }
  }

  lemma KeyLightsLevel(m: Memory, mb: Multibit, l: nat, b: nat)
    requires !mb.Flat() && AllOn(m, mb) && l <= mb.Max() && b < LevelBits(mb, l)
    ensures BitAt(m, Addr(mb.base, l, 0), b)
  {
    hide BitAt, Addr;
    var k := HasKey(mb.total, mb.Max() - l, b);
    assert IsSet(m, mb, k);
    LinkedAbove(m, mb, k, l + 1);
    assert PathBlock(mb, k, l + 1) == b;
    LevelBit(m, mb.base, l, b);
  }

  /** mmbit_all. */
  method All(bits: array<Byte>, mb: Multibit) returns (r: bool)
    ensures r <==> AllOn(bits[..], mb)
  {
    ghost var m := bits[..];
    if mb.Flat() {
      r := LevelOnes(bits[..], mb.base, mb.total);
      FlatAll(m, mb);
      return;
    }
    AllIsLevels(m, mb);
    hide LevelOn, AllOn;
    for level := 0 to mb.Max() + 1
      invariant bits[..] == m && forall l: nat :: l < level ==> LevelOn(m, mb, l)
    {
      var full := LevelOnes(bits[..], Addr(mb.base, level, 0), LevelBits(mb, level));
      assert full == LevelOn(m, mb, level) by { LevelMeans(m, mb, level); }
      if !full {
        return false;
      }
    }
    return true;
  }

  lemma FlatAll(m: Memory, mb: Multibit)
    requires mb.Flat()
    ensures AllOn(m, mb) <==> Ones(m, mb.base, mb.total)
  {
    hide BitAt;
    if AllOn(m, mb) {
      forall k: nat | k < mb.total ensures BitAt(m, mb.base, k) {
        assert IsSet(m, mb, k);
      }
    }
  }

  lemma LevelMeans(m: Memory, mb: Multibit, level: nat)
    requires level <= mb.Max()
    ensures LevelOn(m, mb, level) <==> Ones(m, Addr(mb.base, level, 0), LevelBits(mb, level))
  {
  }
}
