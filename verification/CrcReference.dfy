/**
 CRC-32C against its mathematical definition - the remainder of polynomial long
 division over GF(2) - and what that implies for corrupted data.
 */
module CrcReference {
  import opened Crc32c

  // ----- registers as bit sequences

  /** The n lowest bits of w, lowest first. */
  function BitsOf(w: bv32, n: nat): (s: seq<bool>)
    ensures |s| == n
    decreases n
  {
    if n == 0 then [] else [Low(w)] + BitsOf(Half(w), n - 1)
  }

  function HalfTimes(w: bv32, n: nat): bv32
    decreases n
  {
    if n == 0 then w else HalfTimes(Half(w), n - 1)
  }

  function XorBits(a: seq<bool>, b: seq<bool>): (s: seq<bool>)
    requires |a| == |b|
    ensures |s| == |a|
  {
    seq(|a|, i requires 0 <= i < |a| => a[i] != b[i])
  }

  function NoBits(n: nat): (s: seq<bool>)
    ensures |s| == n
  {
    seq(n, _ => false)
  }

  lemma {:induction false} BitsOfXor(a: bv32, b: bv32, n: nat)
    ensures BitsOf(Xor(a, b), n) == XorBits(BitsOf(a, n), BitsOf(b, n))
    decreases n
  {
    hide Xor, Low, Half;
    if n > 0 {
      LowXor(a, b);
      HalfXor(a, b);
      BitsOfXor(Half(a), Half(b), n - 1);
    }
  }

  lemma {:induction false} BitsOfMore(w: bv32, n: nat)
    ensures BitsOf(w, n + 1) == BitsOf(w, n) + [Low(HalfTimes(w, n))]
    decreases n
  {
    hide Low, Half;
    if n > 0 {
      BitsOfMore(Half(w), n - 1);
    }
  }

  // ----- the register fed one message bit at a time

  /** One message bit: it meets the lowest register bit. */
  function Feed(c: bv32, bit: bool): bv32 {
    BitStep(if bit then Xor(c, 1) else c)
  }

  function FeedAll(c: bv32, bits: seq<bool>): bv32
    decreases |bits|
  {
    if bits == [] then c else FeedAll(Feed(c, bits[0]), bits[1..])
  }

  /** The message as bits, each byte lowest bit first. */
  function MessageBits(buf: seq<bv8>): seq<bool> {
    if buf == [] then [] else BitsOf(Wide(buf[0]), 8) + MessageBits(buf[1..])
  }

  lemma OneIsLow(c: bv32)
    ensures Low(Xor(c, 1)) != Low(c) && Half(Xor(c, 1)) == Half(c)
  {
    OneAlone();
    LowXor(c, 1);
    HalfXor(c, 1);
    XorZero(Half(c));
  }

  lemma OneAlone()
    ensures Low(1) && Half(1) == 0
  {
  }

  lemma StepWithMessage(c: bv32, w: bv32)
    ensures BitStep(Xor(c, w)) == Xor(Feed(c, Low(w)), Half(w))
  {
    hide Xor, Low, Half;
    OneIsLow(c);
    LowXor(c, w);
    HalfXor(c, w);
    XorFacts(Half(c), Half(w), POLY);
  }

  lemma {:induction false} FeedBits(c: bv32, w: bv32, n: nat)
    ensures BitSteps(Xor(c, w), n) == Xor(FeedAll(c, BitsOf(w, n)), HalfTimes(w, n))
    decreases n
  {
    hide Xor, Low, Half, Feed, BitStep;
    if n > 0 {
      StepWithMessage(c, w);
      FeedBits(Feed(c, Low(w)), Half(w), n - 1);
      assert BitsOf(w, n)[1..] == BitsOf(Half(w), n - 1);
    }
  }

  lemma ByteHasEightBits(b: bv8)
    ensures HalfTimes(Wide(b), 8) == 0
  {
    WideFits(b);
    NothingLeft(Wide(b));
  }

  lemma NothingLeft(w: bv32)
    requires w & 0xFF == w
    ensures HalfTimes(w, 8) == 0
  {
    HalfEight(w);
  }

  lemma HalfEight(w: bv32)
    ensures HalfTimes(w, 8) == w >> 8
  {
    hide Half;
    HalvesCompose(w);
    assert HalfTimes(w, 8) == HalfTimes(w >> 1, 7) == HalfTimes(w >> 2, 6) == HalfTimes(w >> 3, 5) ==
        HalfTimes(w >> 4, 4);
    assert HalfTimes(w >> 4, 4) == HalfTimes(w >> 5, 3) == HalfTimes(w >> 6, 2) == HalfTimes(w >> 7, 1) ==
        HalfTimes(w >> 8, 0);
  }

  lemma {:induction false} HalfTimesCompose(w: bv32, m: nat, n: nat)
    ensures HalfTimes(w, m + n) == HalfTimes(HalfTimes(w, m), n)
    decreases m
  {
    hide Half;
    if m > 0 {
      HalfTimesCompose(Half(w), m - 1, n);
    }
  }

  lemma FourEights(w: bv32)
    ensures (((w >> 8) >> 8) >> 8) >> 8 == 0
  {
  }

  lemma HalfAway(w: bv32)
    ensures HalfTimes(w, 32) == 0
  {
    hide Half, HalfTimes;
    HalfTimesCompose(w, 8, 24);
    HalfTimesCompose(w >> 8, 8, 16);
    HalfTimesCompose((w >> 8) >> 8, 8, 8);
    HalfEight(w);
    HalfEight(w >> 8);
    HalfEight((w >> 8) >> 8);
    HalfEight(((w >> 8) >> 8) >> 8);
    FourEights(w);
  }

  lemma {:induction false} FeedConcat(c: bv32, a: seq<bool>, b: seq<bool>)
    ensures FeedAll(c, a + b) == FeedAll(FeedAll(c, a), b)
    decreases |a|
  {
    hide Feed;
    if a == [] {
      assert a + b == b;
    } else {
      assert (a + b)[1..] == a[1..] + b;
      FeedConcat(Feed(c, a[0]), a[1..], b);
    }
  }

  /** The byte-wise CRC is the bit-wise shift register. */
  lemma {:induction false} CrcIsBitwise(c: bv32, buf: seq<bv8>)
    ensures Crc(c, buf) == FeedAll(c, MessageBits(buf))
    decreases |buf|
  {
    hide Feed, BitSteps, Xor;
    if buf != [] {
      var w := Wide(buf[0]);
      FeedBits(c, w, 8);
      ByteHasEightBits(buf[0]);
      XorZero(FeedAll(c, BitsOf(w, 8)));
      FeedConcat(c, BitsOf(w, 8), MessageBits(buf[1..]));
      CrcIsBitwise(ByteStep(c, buf[0]), buf[1..]);
    }
  }

  // ----- long division

  /** The coefficients of x^31 .. x^0 in the generator polynomial 0x11EDC6F41. */
  function PolyTail(): seq<bool> { BitsOf(POLY, 32) }

  /**
   Remainder of a polynomial, highest coefficient first, by the generator:
   while the degree is at least 32, cancel the leading term.
   */
  function Remainder(p: seq<bool>): seq<bool>
    requires |p| >= 32
    decreases |p|
  {
    if |p| == 32 then p
    else if p[0] then Remainder(XorBits(p[1..33], PolyTail()) + p[33..])
    else Remainder(p[1..])
  }

  /** The shift register in terms of bits: drop the leading term, cancel if it was set. */
  lemma StepOnBits(c: bv32)
    ensures BitsOf(BitStep(c), 32) ==
            var shifted := BitsOf(c, 32)[1..] + [false];
            if Low(c) then XorBits(shifted, PolyTail()) else shifted
  {
    hide Xor, Low, Half;
    assert BitsOf(c, 32)[1..] == BitsOf(Half(c), 31);
    BitsOfMore(Half(c), 31);
    TopBitClear(c);
    BitsOfXor(Half(c), POLY, 32);
  }

  lemma TopBitClear(c: bv32)
    ensures !Low(HalfTimes(Half(c), 31))
  {
    hide Half;
    HalfAway(c);
    assert HalfTimes(c, 32) == HalfTimes(Half(c), 31);
  }

  /**
   Dividing a message with the register's content folded into its first 32
   coefficients: feed the first bit, and the same holds of the rest.
   */
  lemma {:induction false} RegisterDivides(c: bv32, m: seq<bool>)
    ensures Remainder(Folded(c, m + NoBits(32))) == BitsOf(FeedAll(c, m), 32)
    decreases |m|
  {
    hide Xor, Low, Half, BitStep;
    var p := m + NoBits(32);
    if m == [] {
      assert Folded(c, p) == BitsOf(c, 32);
    } else {
      var next := Feed(c, m[0]);
      FoldStep(c, p);
      assert p[1..] == m[1..] + NoBits(32);
      RegisterDivides(next, m[1..]);
    }
  }

  /** A polynomial with c added to its 32 leading coefficients. */
  function Folded(c: bv32, p: seq<bool>): (s: seq<bool>)
    requires |p| >= 32
    ensures |s| == |p|
  {
    XorBits(BitsOf(c, 32), p[..32]) + p[32..]
  }

  lemma FoldStep(c: bv32, p: seq<bool>)
    requires |p| > 32
    ensures Remainder(Folded(c, p)) == Remainder(Folded(Feed(c, p[0]), p[1..]))
  {
    hide BitsOf, XorBits, Low, Feed;
    FeedOnBits(c, p[0]);
    FirstBit(c);
    CancelLeading(BitsOf(c, 32), p, PolyTail());
    assert p[1..][..32] == p[1..33] && p[1..][32..] == p[33..];
  }

  lemma FirstBit(c: bv32)
    ensures BitsOf(c, 32)[0] == Low(c)
  {
  }

  /** One step of the division, seen as a step of the register d and of the message p. */
  lemma CancelLeading(d: seq<bool>, p: seq<bool>, tail: seq<bool>)
    requires |d| == 32 && |p| > 32 && |tail| == 32
    ensures var q := XorBits(d, p[..32]) + p[32..];
            var shifted := d[1..] + [false];
            && q[0] == (d[0] != p[0])
            && XorBits(q[1..33], tail) + q[33..] == XorBits(XorBits(shifted, tail), p[1..33]) + p[33..]
            && q[1..] == XorBits(shifted, p[1..33]) + p[33..]
  {
    var q := XorBits(d, p[..32]) + p[32..];
    var shifted := d[1..] + [false];
    assert q[33..] == p[33..];
    forall i | 0 <= i < 32
      ensures q[1..33][i] == (shifted[i] != p[1..33][i])
    {
      if i < 31 {
        assert q[i + 1] == (d[i + 1] != p[..32][i + 1]);
      } else {
        assert q[32] == p[32..][0];
      }
    }
    assert q[1..33] == XorBits(shifted, p[1..33]);
    assert q[1..] == q[1..33] + q[33..];
  }

  lemma FeedOnBits(c: bv32, bit: bool)
    ensures BitsOf(Feed(c, bit), 32) ==
            var shifted := BitsOf(c, 32)[1..] + [false];
            if Low(c) != bit then XorBits(shifted, PolyTail()) else shifted
  {
    hide Xor, Low, Half, BitStep;
    StepOnBits(if bit then Xor(c, 1) else c);
    OneIsLow(c);
    assert BitsOf(c, 32)[1..] == BitsOf(Half(c), 31);
    assert BitsOf(Xor(c, 1), 32)[1..] == BitsOf(Half(Xor(c, 1)), 31);
  }

  /** The CRC of a message, from zero, is the remainder of the message times x^32. */
  lemma CrcIsRemainder(buf: seq<bv8>)
    ensures BitsOf(Crc(0, buf), 32) == Remainder(MessageBits(buf) + NoBits(32))
  {
    hide Crc, Remainder, FeedAll;
    var p := MessageBits(buf) + NoBits(32);
    CrcIsBitwise(0, buf);
    RegisterDivides(0, MessageBits(buf));
    ZeroBits(32);
    assert Folded(0, p) == p;
  }

  lemma {:induction false} ZeroBits(n: nat)
    ensures BitsOf(0, n) == NoBits(n)
    decreases n
  {
    ZeroHalves();
    if n > 0 {
      ZeroBits(n - 1);
    }
  }

  lemma ZeroHalves()
    ensures !Low(0) && Half(0) == 0
  {
  }

  // ----- corrupted data

  /** The step backwards: the polynomial's top bit tells whether it was added. */
  function Unstep(c: bv32): bv32 {
    if c & 0x80000000 != 0 then ((c ^ POLY) << 1) | 1 else c << 1
  }

  lemma StepIsReversible(c: bv32)
    ensures Unstep(BitStep(c)) == c
  {
    if Low(c) {
      ReverseOdd(c);
    } else {
      ReverseEven(c);
    }
  }

  lemma ReverseOdd(c: bv32)
    requires c & 1 == 1
    ensures ((c >> 1) ^ 0x82F63B78) & 0x80000000 != 0
    ensures ((((c >> 1) ^ 0x82F63B78) ^ 0x82F63B78) << 1) | 1 == c
  {
  }

  lemma ReverseEven(c: bv32)
    requires c & 1 != 1
    ensures (c >> 1) & 0x80000000 == 0 && (c >> 1) << 1 == c
  {
  }

  lemma {:induction false} StepsInjective(a: bv32, b: bv32, n: nat)
    requires BitSteps(a, n) == BitSteps(b, n)
    ensures a == b
    decreases n
  {
    hide BitStep, Unstep;
    if n > 0 {
      StepsInjective(BitStep(a), BitStep(b), n - 1);
      StepIsReversible(a);
      StepIsReversible(b);
    }
  }

  /** The zero-byte step is a bijection: no two registers collide. */
  lemma {:induction false} ZeroBytesInjective(a: bv32, b: bv32, n: nat)
    requires ZeroBytes(a, n) == ZeroBytes(b, n)
    ensures a == b
    decreases n
  {
    hide BitStep;
    if n > 0 {
      ZeroBytesInjective(ZeroByte(a), ZeroByte(b), n - 1);
      StepsInjective(a, b, 8);
    }
  }

  lemma XorCancels(c: bv32, a: bv32, b: bv32)
    ensures Xor(c, a) == Xor(c, b) ==> a == b
    ensures Xor(a, c) == Xor(b, c) ==> a == b
  {
  }

  /** Equal data keeps different registers different. */
  lemma {:induction false} SameDataKeepsApart(a: bv32, b: bv32, buf: seq<bv8>)
    requires Crc(a, buf) == Crc(b, buf)
    ensures a == b
    decreases |buf|
  {
    hide BitSteps, Xor;
    if buf != [] {
      SameDataKeepsApart(ByteStep(a, buf[0]), ByteStep(b, buf[0]), buf[1..]);
      StepsInjective(Xor(a, Wide(buf[0])), Xor(b, Wide(buf[0])), 8);
      XorCancels(Wide(buf[0]), a, b);
    }
  }

  lemma AppendInjective(b: bv8, w: bv32, c: bv8, x: bv32)
    requires w & 0xFFFFFF == w && x & 0xFFFFFF == x && Append(b, w) == Append(c, x)
    ensures b == c && w == x
  {
    WideFits(b);
    WideFits(c);
    SplitAppend(Wide(b), w);
    SplitAppend(Wide(c), x);
  }

  lemma SplitAppend(b: bv32, w: bv32)
    requires b & 0xFF == b && w & 0xFFFFFF == w
    ensures Xor(b, w << 8) & 0xFF == b && Xor(b, w << 8) >> 8 == w
  {
  }

  /** Up to four bytes are determined by their word. */
  lemma {:induction false} WordInjective(a: seq<bv8>, b: seq<bv8>)
    requires |a| == |b| <= 4 && Word(a) == Word(b)
    ensures a == b
    decreases |a|
  {
    hide Append;
    if a != [] {
      WordFits(a[1..]);
      WordFits(b[1..]);
      FitsFewer(Word(a[1..]));
      FitsFewer(Word(b[1..]));
      AppendInjective(a[0], Word(a[1..]), b[0], Word(b[1..]));
      WordInjective(a[1..], b[1..]);
      assert a == [a[0]] + a[1..] && b == [b[0]] + b[1..];
    }
  }

  /** Two messages that differ only inside four consecutive bytes have different CRCs. */
  lemma BurstIsDetected(c: bv32, m: seq<bv8>, n: seq<bv8>, i: nat, j: nat)
    requires |m| == |n| && i <= j <= |m| && j - i <= 4
    requires m[..i] == n[..i] && m[j..] == n[j..] && m != n
    ensures Crc(c, m) != Crc(c, n)
  {
    hide Crc, ZeroBytes, Word, Xor;
    var r := Crc(c, m[..i]);
    var a, b := m[i..j], n[i..j];
    assert m == (m[..i] + a) + m[j..] && n == (n[..i] + b) + n[j..];
    CrcConcat(c, m[..i] + a, m[j..]);
    CrcConcat(c, n[..i] + b, n[j..]);
    CrcConcat(c, m[..i], a);
    CrcConcat(c, n[..i], b);
    CrcOfWord(r, a);
    CrcOfWord(r, b);
    if Crc(c, m) == Crc(c, n) {
      SameDataKeepsApart(Crc(r, a), Crc(r, b), m[j..]);
      ZeroBytesInjective(Xor(r, Word(a)), Xor(r, Word(b)), j - i);
      XorCancels(r, Word(a), Word(b));
      WordInjective(a, b);
    }
  }

  // ----- the constants in the source

  // At the powers of two the tables are those of the source; TableLinear fixes their other entries.

  lemma NextEntry(k: nat, i: bv32)
    ensures Table(k + 1, i) == ZeroByte(Table(k, i))
  {
    hide ZeroByte;
    ZeroBytesCompose(i, k, 1);
    assert ZeroBytes(ZeroBytes(i, k), 1) == ZeroBytes(ZeroByte(ZeroBytes(i, k)), 0);
  }

  /** Table 1 of eight, crc_tableil8_o32. */
  lemma Basis1()
    ensures Table(1, 1) == 0xF26B8303 && Table(1, 2) == 0xE13B70F7 && Table(1, 4) == 0xC79A971F &&
            Table(1, 8) == 0x8AD958CF
    ensures Table(1, 16) == 0x105EC76F && Table(1, 32) == 0x20BD8EDE && Table(1, 64) == 0x417B1DBC &&
            Table(1, 128) == 0x82F63B78
  {
  }

  /** Table 2 of eight, crc_tableil8_o40. */
  lemma Basis2()
    ensures Table(2, 1) == 0x13A29877 && Table(2, 2) == 0x274530EE && Table(2, 4) == 0x4E8A61DC &&
            Table(2, 8) == 0x9D14C3B8
    ensures Table(2, 16) == 0x3FC5F181 && Table(2, 32) == 0x7F8BE302 && Table(2, 64) == 0xFF17C604 &&
            Table(2, 128) == 0xFBC3FAF9
  {
    hide Table;
    Basis1();
    NextEntry(1, 1);
    NextEntry(1, 2);
    NextEntry(1, 4);
    NextEntry(1, 8);
    NextEntry(1, 16);
    NextEntry(1, 32);
    NextEntry(1, 64);
    NextEntry(1, 128);
  }

  /** Table 3 of eight, crc_tableil8_o48. */
  lemma Basis3()
    ensures Table(3, 1) == 0xA541927E && Table(3, 2) == 0x4F6F520D && Table(3, 4) == 0x9EDEA41A &&
            Table(3, 8) == 0x38513EC5
    ensures Table(3, 16) == 0x70A27D8A && Table(3, 32) == 0xE144FB14 && Table(3, 64) == 0xC76580D9 &&
            Table(3, 128) == 0x8B277743
  {
    hide Table;
    Basis2();
    NextEntry(2, 1);
    NextEntry(2, 2);
    NextEntry(2, 4);
    NextEntry(2, 8);
    NextEntry(2, 16);
    NextEntry(2, 32);
    NextEntry(2, 64);
    NextEntry(2, 128);
  }

  /** Table 4 of eight, crc_tableil8_o56. */
  lemma Basis4()
    ensures Table(4, 1) == 0xDD45AAB8 && Table(4, 2) == 0xBF672381 && Table(4, 4) == 0x7B2231F3 &&
            Table(4, 8) == 0xF64463E6
    ensures Table(4, 16) == 0xE964B13D && Table(4, 32) == 0xD725148B && Table(4, 64) == 0xABA65FE7 &&
            Table(4, 128) == 0x52A0C93F
  {
    hide Table;
    Basis3();
    NextEntry(3, 1);
    NextEntry(3, 2);
    NextEntry(3, 4);
    NextEntry(3, 8);
    NextEntry(3, 16);
    NextEntry(3, 32);
    NextEntry(3, 64);
    NextEntry(3, 128);
  }

  /** Table 5 of eight, crc_tableil8_o64. */
  lemma Basis5()
    ensures Table(5, 1) == 0x38116FAC && Table(5, 2) == 0x7022DF58 && Table(5, 4) == 0xE045BEB0 &&
            Table(5, 8) == 0xC5670B91
    ensures Table(5, 16) == 0x8F2261D3 && Table(5, 32) == 0x1BA8B557 && Table(5, 64) == 0x37516AAE &&
            Table(5, 128) == 0x6EA2D55C
  {
    hide Table;
    Basis4();
    NextEntry(4, 1);
    NextEntry(4, 2);
    NextEntry(4, 4);
    NextEntry(4, 8);
    NextEntry(4, 16);
    NextEntry(4, 32);
    NextEntry(4, 64);
    NextEntry(4, 128);
  }

  /** Table 6 of eight, crc_tableil8_o72. */
  lemma Basis6()
    ensures Table(6, 1) == 0xEF306B19 && Table(6, 2) == 0xDB8CA0C3 && Table(6, 4) == 0xB2F53777 &&
            Table(6, 8) == 0x6006181F
    ensures Table(6, 16) == 0xC00C303E && Table(6, 32) == 0x85F4168D && Table(6, 64) == 0x0E045BEB &&
            Table(6, 128) == 0x1C08B7D6
  {
    hide Table;
    Basis5();
    NextEntry(5, 1);
    NextEntry(5, 2);
    NextEntry(5, 4);
    NextEntry(5, 8);
    NextEntry(5, 16);
    NextEntry(5, 32);
    NextEntry(5, 64);
    NextEntry(5, 128);
  }

  /** Table 7 of eight, crc_tableil8_o80. */
  lemma Basis7()
    ensures Table(7, 1) == 0x68032CC8 && Table(7, 2) == 0xD0065990 && Table(7, 4) == 0xA5E0C5D1 &&
            Table(7, 8) == 0x4E2DFD53
    ensures Table(7, 16) == 0x9C5BFAA6 && Table(7, 32) == 0x3D5B83BD && Table(7, 64) == 0x7AB7077A &&
            Table(7, 128) == 0xF56E0EF4
  {
    hide Table;
    Basis6();
    NextEntry(6, 1);
    NextEntry(6, 2);
    NextEntry(6, 4);
    NextEntry(6, 8);
    NextEntry(6, 16);
    NextEntry(6, 32);
    NextEntry(6, 64);
    NextEntry(6, 128);
  }

  /** Table 8 of eight, crc_tableil8_o88. */
  lemma Basis8()
    ensures Table(8, 1) == 0x493C7D27 && Table(8, 2) == 0x9278FA4E && Table(8, 4) == 0x211D826D &&
            Table(8, 8) == 0x423B04DA
    ensures Table(8, 16) == 0x847609B4 && Table(8, 32) == 0x0D006599 && Table(8, 64) == 0x1A00CB32 &&
            Table(8, 128) == 0x34019664
  {
    hide Table;
    Basis7();
    NextEntry(7, 1);
    NextEntry(7, 2);
    NextEntry(7, 4);
    NextEntry(7, 8);
    NextEntry(7, 16);
    NextEntry(7, 32);
    NextEntry(7, 64);
    NextEntry(7, 128);
  }

  lemma {:induction false} BitsJoin(w: bv32, m: nat, n: nat)
    ensures BitsOf(w, m + n) == BitsOf(w, m) + BitsOf(HalfTimes(w, m), n)
    decreases m
  {
    hide Low, Half;
    if m > 0 {
      BitsJoin(Half(w), m - 1, n);
    }
  }

  lemma HalfByte(w: bv32)
    ensures HalfTimes(w, 8) == Shift8(w)
  {
    HalfEight(w);
  }

  /** The bits of a word, byte by byte. */
  lemma {:induction false} BitsByBytes(w: bv32, x: bv32, y: bv32, z: bv32)
    requires x == Shift8(w) && y == Shift8(x) && z == Shift8(y)
    ensures BitsOf(w, 32) == BitsOf(w, 8) + (BitsOf(x, 8) + (BitsOf(y, 8) + BitsOf(z, 8)))
  {
    hide BitsOf, HalfTimes, Shift8;
    BitsJoin(w, 8, 24);
    HalfByte(w);
    BitsJoin(x, 8, 16);
    HalfByte(x);
    BitsJoin(y, 8, 8);
    HalfByte(y);
  }

  /** One sequence is the other backwards. */
  ghost predicate Mirror(a: seq<bool>, b: seq<bool>) {
    |a| == |b| && forall i :: 0 <= i < |a| ==> a[i] == b[|b| - 1 - i]
  }

  lemma MirrorJoin(a: seq<bool>, b: seq<bool>, p: seq<bool>, q: seq<bool>)
    requires Mirror(p, b) && Mirror(q, a)
    ensures Mirror(p + q, a + b)
  {
    var x, y := p + q, a + b;
    forall i | 0 <= i < |x| ensures x[i] == y[|y| - 1 - i] {
      if i < |p| {
        assert y[|y| - 1 - i] == b[|b| - 1 - i];
      } else {
        assert y[|y| - 1 - i] == a[|a| - 1 - (i - |p|)];
      }
    }
  }

  lemma TopMirrors()
    ensures Mirror(BitsOf(POLY, 8), BitsOf(0x1E, 8))
  {
  }

  lemma SecondMirrors()
    ensures Mirror(BitsOf(0x82F63B, 8), BitsOf(0x1EDC, 8))
  {
  }

  lemma ThirdMirrors()
    ensures Mirror(BitsOf(0x82F6, 8), BitsOf(0x1EDC6F, 8))
  {
  }

  lemma LastMirrors()
    ensures Mirror(BitsOf(0x82, 8), BitsOf(0x1EDC6F41, 8))
  {
  }

  /** The coefficients of the generator, highest first, are the bits of 0x1EDC6F41, the name it goes by. */
  lemma {:induction false} GeneratorBits()
    ensures Mirror(PolyTail(), BitsOf(0x1EDC6F41, 32))
  {
    hide BitsOf, Mirror;
    var a, b, c, d := BitsOf(0x1EDC6F41, 8), BitsOf(0x1EDC6F, 8), BitsOf(0x1EDC, 8), BitsOf(0x1E, 8);
    var p, q, r, s := BitsOf(POLY, 8), BitsOf(0x82F63B, 8), BitsOf(0x82F6, 8), BitsOf(0x82, 8);
    TopMirrors();
    SecondMirrors();
    ThirdMirrors();
    LastMirrors();
    BitsByBytes(POLY, 0x82F63B, 0x82F6, 0x82);
    BitsByBytes(0x1EDC6F41, 0x1EDC6F, 0x1EDC, 0x1E);
    MirrorJoin(a, b, r, s);
    MirrorJoin(a + b, c, q, r + s);
    MirrorJoin(a + b + c, d, p, q + (r + s));
    assert a + (b + (c + d)) == a + b + c + d;
  }
}
