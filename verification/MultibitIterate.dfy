/**
 mmbit_iterate_big of src/util/multibit.h: the walk from one set key of a pyramid to
 the next, which goes up and down through the blocks in use.
 */
module MultibitIterate {
  import opened Common
  import opened MultibitCodec
  import opened MultibitSet

  /** The least key under child `rem` of block (level, key). */
  function Lo(mb: Multibit, level: nat, key: nat, rem: nat): nat
    requires level <= mb.Max()
  {
    (64 * key + rem) * Pow64(mb.Max() - level)
  }

  lemma LoGrows(mb: Multibit, level: nat, key: nat, rem: nat, j: nat)
    requires level <= mb.Max() && rem < j
    ensures Lo(mb, level, key, rem) < Lo(mb, level, key, j)
  {
    var p := Pow64(mb.Max() - level);
    LessTimes(64 * key + rem, 64 * key + j, p);
  }

  lemma LessTimes(a: nat, b: nat, p: nat)
    requires a < b && p > 0
    ensures a * p < b * p
  {
  }

  lemma LoDown(mb: Multibit, level: nat, key: nat, j: nat)
    requires level < mb.Max()
    ensures Lo(mb, level + 1, Child(key, j), 0) == Lo(mb, level, key, j)
  {
    var p := Pow64(mb.Max() - level - 1);
    assert Pow64(mb.Max() - level) == 64 * p;
    TimesTimes(Child(key, j), p);
  }

  lemma TimesTimes(c: nat, p: nat)
    ensures (64 * c + 0) * p == c * (64 * p)
  {
  }

  lemma LoUp(mb: Multibit, level: nat, key: nat)
    requires 0 < level <= mb.Max()
    ensures Lo(mb, level - 1, Parent(key), Slot(key) + 1) == Lo(mb, level, key, 64)
  {
    var p := Pow64(mb.Max() - level);
    assert Pow64(mb.Max() - (level - 1)) == 64 * p;
    assert 64 * Parent(key) + (Slot(key) + 1) == key + 1;
    TimesTimes(key + 1, p);
  }

  lemma LoLast(mb: Multibit, key: nat, rem: nat)
    ensures Lo(mb, mb.Max(), key, rem) == 64 * key + rem
  {
    assert Pow64(0) == 1;
    TimesOne(64 * key + rem);
  }

  lemma TimesOne(a: nat)
    ensures a * 1 == a
  {
  }

  lemma LoEnd(mb: Multibit)
    ensures mb.total <= Lo(mb, 0, 0, 64)
  {
    LevelHolds(mb.total);
  }

  /** The keys between two neighbouring bounds have their path through that child. */
  lemma {:induction false} AncBetween(i: nat, n: nat, q: nat)
    requires q * Pow64(n) <= i < (q + 1) * Pow64(n)
    ensures Anc(i, n) == q
  {
    if n > 0 {
      var p := Pow64(n - 1);
      AncSplit(i, n - 1);
      var r := Anc(i, n - 1);
      var s := SplitBounds(q, p, i);
      AncBetween(i, n - 1, 64 * q + s);
    } else {
      TimesOne(q);
      TimesOne(q + 1);
    }
  }

  lemma AncSplit(i: nat, n: nat)
    ensures Anc(i, n + 1) == Parent(Anc(i, n))
  {
  }

  lemma SplitBounds(q: nat, p: nat, i: nat) returns (s: nat)
    requires p > 0 && q * (64 * p) <= i < (q + 1) * (64 * p)
    ensures s < 64 && (64 * q + s) * p <= i < (64 * q + s + 1) * p
  {
    var w := i - q * (64 * p);
    Steps64(q, p);
    s := FindStep(w, p, 63);
    Gather(q, s, p);
    Gather(q, s + 1, p);
  }

  lemma Steps64(q: nat, p: nat)
    ensures (q + 1) * (64 * p) == q * (64 * p) + 64 * p
  {
  }

  lemma Gather(q: nat, s: nat, p: nat)
    ensures (64 * q + s) * p == q * (64 * p) + s * p
  {
  }

  /** Which step of width p holds w, counted down from `top`. */
  lemma {:induction false} FindStep(w: nat, p: nat, top: nat) returns (s: nat)
    requires p > 0 && w < (top + 1) * p
    ensures s <= top && s * p <= w < (s + 1) * p
    decreases top
  {
    if top * p <= w {
      s := top;
    } else {
      s := FindStep(w, p, top - 1);
    }
  }

  lemma KeyUnder(mb: Multibit, level: nat, key: nat, r: nat, i: nat)
    requires level <= mb.Max() && Lo(mb, level, key, r) <= i < Lo(mb, level, key, r + 1)
    ensures PathBlock(mb, i, level + 1) == Child(key, r)
  {
    hide Pow64, Anc;
    AncBetween(i, mb.Max() - level, 64 * key + r);
  }

  /** No key under a clear bit is set. */
  lemma ClearBitNoKeys(m: Memory, mb: Multibit, level: nat, key: nat, r: nat, i: nat)
    requires !mb.Flat() && level <= mb.Max() && r < 64 && !BitAt(m, Addr(mb.base, level, key), r)
    requires Lo(mb, level, key, r) <= i < Lo(mb, level, key, r + 1)
    ensures !IsSet(m, mb, i)
  {
    hide BitAt, Addr, Linked, Lo, Child, Parent, Slot, PathBlock;
    KeyUnder(mb, level, key, r, i);
    ChildOf(key, r);
    PathStep(mb, i, level);
    BrokenPath(m, mb, i, level, mb.Max() + 1);
    PathEnds(mb, i);
  }

  /** So a run of clear bits holds none. */
  lemma {:induction false} ClearRunNoKeys(m: Memory, mb: Multibit, level: nat, key: nat, rem: nat, i: nat)
    requires !mb.Flat() && level <= mb.Max() && rem <= 64
    requires var j := Lowest(m, Addr(mb.base, level, key), rem); Lo(mb, level, key, rem) <= i < Lo(mb, level, key, j)
    ensures !IsSet(m, mb, i)
    decreases 64 - rem
  {
    hide BitAt, Addr, Lo, IsSet;
    if rem < 64 && !BitAt(m, Addr(mb.base, level, key), rem) {
      if i < Lo(mb, level, key, rem + 1) {
        ClearBitNoKeys(m, mb, level, key, rem, i);
      } else {
        ClearRunNoKeys(m, mb, level, key, rem + 1, i);
      }
    }
  }

  ghost predicate NoneFrom(m: Memory, mb: Multibit, from: nat, upto: nat) {
    forall i: nat :: from <= i < upto ==> !IsSet(m, mb, i)
  }

  lemma NoneFurther(m: Memory, mb: Multibit, level: nat, key: nat, rem: nat, from: nat)
    requires !mb.Flat() && level <= mb.Max() && rem <= 64 && NoneFrom(m, mb, from, Lo(mb, level, key, rem))
    ensures NoneFrom(m, mb, from, Lo(mb, level, key, Lowest(m, Addr(mb.base, level, key), rem)))
  {
    hide IsSet, Lo, Addr, Lowest;
    var j := Lowest(m, Addr(mb.base, level, key), rem);
    forall i: nat | from <= i < Lo(mb, level, key, j) ensures !IsSet(m, mb, i) {
      if i >= Lo(mb, level, key, rem) {
        ClearRunNoKeys(m, mb, level, key, rem, i);
      }
    }
  }

  lemma NextIsThis(m: Memory, mb: Multibit, from: nat, r: nat)
    requires from <= r && NoneFrom(m, mb, from, r) && (IsSet(m, mb, r) || r >= mb.total)
    ensures Next(m, mb, from) == if r < mb.total then r else mb.total
  {
    hide IsSet;
    NextIsLeast(m, mb, from);
    assert IsSet(m, mb, r) ==> r < mb.total by { BelowTotal(m, mb, r); }
  }

  lemma BelowTotal(m: Memory, mb: Multibit, r: nat)
    ensures IsSet(m, mb, r) ==> r < mb.total
  {
  }

  lemma RootKey(m: Memory, mb: Multibit, key: nat)
    requires Linked(m, mb.base, 0, key)
    ensures key == 0
  {
  }

  lemma ParentLinked(m: Memory, mb: Multibit, level: nat, key: nat)
    requires level > 0 && Linked(m, mb.base, level, key)
    ensures Linked(m, mb.base, level - 1, Parent(key))
  {
  }

  lemma ChildLinked(m: Memory, mb: Multibit, level: nat, key: nat, j: nat)
    requires Linked(m, mb.base, level, key) && j < 64 && BitAt(m, Addr(mb.base, level, key), j)
    ensures Linked(m, mb.base, level + 1, Child(key, j))
  {
    ChildOf(key, j);
  }

  lemma {:induction false} LinkedEnd(m: Memory, mb: Multibit, level: nat, key: nat, j: nat)
    requires level <= mb.Max() && Linked(m, mb.base, level, key) && j <= 64
    ensures Lo(mb, level, key, j) <= Lo(mb, 0, 0, 64)
    decreases level
  {
    hide Lo, BitAt, Addr;
    if j < 64 {
      LoGrows(mb, level, key, j, 64);
    }
    if level > 0 {
      LoUp(mb, level, key);
      LinkedEnd(m, mb, level - 1, Parent(key), Slot(key) + 1);
    }
  }

  lemma LastIsSet(m: Memory, mb: Multibit, key: nat, j: nat)
    requires !mb.Flat() && Valid(m, mb) && j < 64 && Linked(m, mb.base, mb.Max() + 1, Child(key, j))
    ensures IsSet(m, mb, Child(key, j)) && Child(key, j) == 64 * key + j
  {
    assert OnPath(m, mb, Child(key, j));
  }

  lemma IterateStart(m: Memory, mb: Multibit, first: bool, last: nat)
    requires !mb.Flat() && (!first ==> IsSet(m, mb, last))
    ensures first ==> Linked(m, mb.base, 0, 0) && Lo(mb, 0, 0, 0) == 0
    ensures !first ==>
              Linked(m, mb.base, mb.Max(), Parent(last)) && Lo(mb, mb.Max(), Parent(last), Slot(last) + 1) == last + 1
  {
    if !first {
      LoLast(mb, Parent(last), Slot(last) + 1);
    }
  }

  /** mmbit_iterate_big: from the start, or after a key that is set. */
  method IterateBig(bits: array<Byte>, mb: Multibit, first: bool, last: nat) returns (r: nat)
    requires !mb.Flat() && Valid(bits[..], mb) && (!first ==> IsSet(bits[..], mb, last))
    ensures r == Next(bits[..], mb, if first then 0 else last + 1)
  {
    hide BitAt, Addr, Linked, Lo, Fitting, Lowest, IsSet, WellFormed, Next, Child, Parent, Slot;
    ghost var m := bits[..];
    ghost var from := if first then 0 else last + 1;
    var level: nat, key: nat, rem: nat := 0, 0, 0;
    if !first {
      key, rem, level := Parent(last), Slot(last) + 1, mb.Max();
    }
    IterateStart(m, mb, first, last);
    LinkedEnd(m, mb, level, key, rem);
    LoEnd(mb);
    while true
      invariant level <= mb.Max() && rem <= 64 && bits[..] == m
      invariant Linked(m, mb.base, level, key) && from <= Lo(mb, level, key, rem) <= Lo(mb, 0, 0, 64)
      invariant NoneFrom(m, mb, from, Lo(mb, level, key, rem))
      decreases Lo(mb, 0, 0, 64) - Lo(mb, level, key, rem), if rem > 0 then mb.Max() + 1 + level else mb.Max() - level
    {
      var j := 64;
      if rem < 64 {
        j := Lowest(bits[..], Addr(mb.base, level, key), rem);
        NoneFurther(m, mb, level, key, rem, from);
        LinkedEnd(m, mb, level, key, j);
        if rem < j {
          LoGrows(mb, level, key, rem, j);
        }
      }
      if j < 64 {
        ChildLinked(m, mb, level, key, j);
        if level == mb.Max() {
          LoLast(mb, key, j);
          LastIsSet(m, mb, key, j);
          NextIsThis(m, mb, from, Child(key, j));
          return Child(key, j);
        }
        LoDown(mb, level, key, j);
        level, key, rem := level + 1, Child(key, j), 0;
        continue;
      }
      if level == 0 {
        RootKey(m, mb, key);
        NextIsThis(m, mb, from, Lo(mb, 0, 0, 64));
        return mb.total;
      }
      LoUp(mb, level, key);
      ParentLinked(m, mb, level, key);
      level, key, rem := level - 1, Parent(key), Slot(key) + 1;
    }
  }
}
