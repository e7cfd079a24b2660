/**
 CRC-32C as src/crc32.c computes it: the reflected polynomial 0x82F63B78, no
 initial or final complement. The byte loop and slicing-by-8 are both proved
 equal to feeding the message bit by bit through the shift register.
 */
module Crc32c {
  import opened Common

  const POLY: bv32 := 0x82F63B78

  // Wrappers, so that proofs can treat the machine operations as algebra.

  function Xor(a: bv32, b: bv32): bv32 { a ^ b }
  function Half(c: bv32): bv32 { c >> 1 }
  predicate Low(c: bv32) { c & 1 == 1 }
  function Wide(b: bv8): bv32 { b as bv32 }

  /** One step of the shift register: divide by the polynomial, lowest bit first. */
  function BitStep(c: bv32): bv32 {
    if Low(c) then Xor(Half(c), POLY) else Half(c)
  }

  function BitSteps(c: bv32, n: nat): bv32
    decreases n
  {
    if n == 0 then c else BitSteps(BitStep(c), n - 1)
  }

  /** Eight register steps: what a zero byte does. */
  function ZeroByte(c: bv32): bv32 { BitSteps(c, 8) }

  function ZeroBytes(c: bv32, n: nat): bv32
    decreases n
  {
    if n == 0 then c else ZeroBytes(ZeroByte(c), n - 1)
  }

  /** The register after one message byte. */
  function ByteStep(c: bv32, b: bv8): bv32 { ZeroByte(Xor(c, Wide(b))) }

  /** The CRC of a buffer, from a running value. */
  function Crc(c: bv32, buf: seq<bv8>): bv32
    decreases |buf|
  {
    if buf == [] then c else Crc(ByteStep(c, buf[0]), buf[1..])
  }

  // ----- the algebra of the register

  lemma XorFacts(a: bv32, b: bv32, p: bv32)
    ensures Xor(Xor(a, p), b) == Xor(Xor(a, b), p)
    ensures Xor(a, Xor(b, p)) == Xor(Xor(a, b), p)
    ensures Xor(Xor(a, p), Xor(b, p)) == Xor(a, b)
  {
  }

  lemma HalfXor(a: bv32, b: bv32)
    ensures Half(Xor(a, b)) == Xor(Half(a), Half(b))
  {
  }

  lemma LowXor(a: bv32, b: bv32)
    ensures Low(Xor(a, b)) <==> Low(a) != Low(b)
  {
  }

  lemma StepLinear(a: bv32, b: bv32)
    ensures BitStep(Xor(a, b)) == Xor(BitStep(a), BitStep(b))
  {
    hide Xor, Half, Low;
    HalfXor(a, b);
    LowXor(a, b);
    XorFacts(Half(a), Half(b), POLY);
  }

  lemma {:induction false} StepsLinear(a: bv32, b: bv32, n: nat)
    ensures BitSteps(Xor(a, b), n) == Xor(BitSteps(a, n), BitSteps(b, n))
    decreases n
  {
    hide Xor, BitStep;
    if n > 0 {
      StepLinear(a, b);
      StepsLinear(BitStep(a), BitStep(b), n - 1);
    }
  }

  /** Zero bytes act linearly on the register. */
  lemma {:induction false} ZeroBytesLinear(a: bv32, b: bv32, n: nat)
    ensures ZeroBytes(Xor(a, b), n) == Xor(ZeroBytes(a, n), ZeroBytes(b, n))
    decreases n
  {
    hide Xor, BitStep;
    if n > 0 {
      StepsLinear(a, b, 8);
      ZeroBytesLinear(ZeroByte(a), ZeroByte(b), n - 1);
    }
  }

  // ----- whole bytes

  lemma LowBitsClear(c: bv32)
    requires c & 0xFF == 0
    ensures !Low(c) && !Low(c >> 1) && !Low(c >> 2) && !Low(c >> 3)
    ensures !Low(c >> 4) && !Low(c >> 5) && !Low(c >> 6) && !Low(c >> 7)
  {
  }

  lemma HalvesCompose(c: bv32)
    ensures Half(c) == c >> 1 && Half(c >> 1) == c >> 2 && Half(c >> 2) == c >> 3 && Half(c >> 3) == c >> 4
    ensures Half(c >> 4) == c >> 5 && Half(c >> 5) == c >> 6 && Half(c >> 6) == c >> 7 && Half(c >> 7) == c >> 8
  {
  }

  ghost predicate Halving(a: bv32, b: bv32) { !Low(a) && Half(a) == b }

  lemma EightHalvings(a: bv32, b: bv32, c: bv32, d: bv32, e: bv32, f: bv32, g: bv32, h: bv32, i: bv32)
    requires Halving(a, b) && Halving(b, c) && Halving(c, d) && Halving(d, e)
    requires Halving(e, f) && Halving(f, g) && Halving(g, h) && Halving(h, i)
    ensures ZeroByte(a) == i
  {
    hide Low, Half, Xor;
    assert BitSteps(a, 8) == BitSteps(b, 7) == BitSteps(c, 6) == BitSteps(d, 5) == BitSteps(e, 4);
    assert BitSteps(e, 4) == BitSteps(f, 3) == BitSteps(g, 2) == BitSteps(h, 1) == BitSteps(i, 0);
  }

  /** A register whose low byte is clear just shifts by a byte. */
  lemma ShiftOut(c: bv32)
    requires c & 0xFF == 0
    ensures ZeroByte(c) == c >> 8
  {
    hide Low, Half, ZeroByte;
    LowBitsClear(c);
    HalvesCompose(c);
    EightHalvings(c, c >> 1, c >> 2, c >> 3, c >> 4, c >> 5, c >> 6, c >> 7, c >> 8);
  }

  /** The table crc_tableil8_o(24 + 8k): what k zero bytes do to a single byte. */
  function Table(k: nat, i: bv32): bv32 { ZeroBytes(i, k) }

  lemma SplitLowByte(c: bv32)
    ensures Xor(c & 0xFF, c & 0xFFFFFF00) == c
    ensures (c & 0xFFFFFF00) & 0xFF == 0 && (c & 0xFFFFFF00) >> 8 == c >> 8
  {
  }

  /** The table step of the byte loop is eight register steps. */
  lemma TableStep(c: bv32)
    ensures ZeroByte(c) == Xor(Table(1, c & 0xFF), c >> 8)
  {
    hide Xor, BitSteps;
    SplitLowByte(c);
    ShiftOut(c & 0xFFFFFF00);
    StepsLinear(c & 0xFF, c & 0xFFFFFF00, 8);
    OneByte(c & 0xFF);
  }

  lemma OneByte(i: bv32)
    ensures ZeroBytes(i, 1) == ZeroByte(i)
  {
    hide ZeroByte;
    assert ZeroBytes(ZeroByte(i), 0) == ZeroByte(i);
  }

  /** Each table follows from the one before it, as the generator of the tables builds them. */
  lemma TableRecurrence(k: nat, i: bv32)
    ensures Table(k + 1, i) == Xor(Table(1, Table(k, i) & 0xFF), Table(k, i) >> 8)
  {
    hide ZeroByte, Xor;
    ZeroBytesCompose(i, k, 1);
    OneByte(ZeroBytes(i, k));
    TableStep(ZeroBytes(i, k));
  }

  lemma {:induction false} ZeroBytesCompose(c: bv32, m: nat, n: nat)
    ensures ZeroBytes(c, m + n) == ZeroBytes(ZeroBytes(c, m), n)
    decreases m
  {
    hide ZeroByte;
    if m > 0 {
      ZeroBytesCompose(ZeroByte(c), m - 1, n);
    }
  }

  /** A table is linear in its index, so its entries at the powers of two determine all 256. */
  lemma TableLinear(k: nat, i: bv32, j: bv32)
    ensures Table(k, Xor(i, j)) == Xor(Table(k, i), Table(k, j))
  {
    hide Xor;
    ZeroBytesLinear(i, j, k);
  }

  // ----- up to four bytes at once

  /** Little-endian value of up to four bytes. */
  function Word(bs: seq<bv8>): bv32
    requires |bs| <= 4
  {
    if bs == [] then 0 else Append(bs[0], Word(bs[1..]))
  }

  function Append(b: bv8, rest: bv32): bv32 { Xor(Wide(b), rest << 8) }

  function Mask(n: nat): bv32
    requires n <= 4
  {
    match n
    case 0 => 0
    case 1 => 0xFF
    case 2 => 0xFFFF
    case 3 => 0xFFFFFF
    case _ => 0xFFFFFFFF
  }

  lemma AppendFits(b: bv8, rest: bv32)
    ensures rest & 0 == rest ==> Append(b, rest) & 0xFF == Append(b, rest)
    ensures rest & 0xFF == rest ==> Append(b, rest) & 0xFFFF == Append(b, rest)
    ensures rest & 0xFFFF == rest ==> Append(b, rest) & 0xFFFFFF == Append(b, rest)
    ensures Append(b, rest) & 0xFFFFFFFF == Append(b, rest)
  {
    WideFits(b);
  }

  lemma WideFits(b: bv8)
    ensures Wide(b) & 0xFF == Wide(b)
  {
  }

  lemma {:induction false} WordFits(bs: seq<bv8>)
    requires |bs| <= 4
    ensures Word(bs) & Mask(|bs|) == Word(bs)
  {
    hide Append;
    if bs != [] {
      WordFits(bs[1..]);
      AppendFits(bs[0], Word(bs[1..]));
    }
  }

  lemma FitsFewer(w: bv32)
    ensures w & 0 == w ==> w & 0xFFFFFF == w
    ensures w & 0xFF == w ==> w & 0xFFFFFF == w
    ensures w & 0xFFFF == w ==> w & 0xFFFFFF == w
  {
  }

  lemma ShiftBack(w: bv32)
    requires w & 0xFFFFFF == w
    ensures (w << 8) & 0xFF == 0 && (w << 8) >> 8 == w
  {
  }

  lemma XorAssoc(a: bv32, b: bv32, c: bv32)
    ensures Xor(Xor(a, b), c) == Xor(a, Xor(b, c))
  {
  }

  /** Bytes still to come can be folded into the register ahead of time. */
  lemma Absorb(c: bv32, b: bv8, w: bv32)
    requires w & 0xFFFFFF == w
    ensures Xor(ByteStep(c, b), w) == ZeroByte(Xor(c, Append(b, w)))
  {
    hide Xor, BitSteps;
    ShiftBack(w);
    ShiftOut(w << 8);
    StepsLinear(Xor(c, Wide(b)), w << 8, 8);
    XorAssoc(c, Wide(b), w << 8);
  }

  /** The CRC of up to four bytes: fold them in as one word, then run the register. */
  lemma {:induction false} CrcOfWord(c: bv32, bs: seq<bv8>)
    requires |bs| <= 4
    ensures Crc(c, bs) == ZeroBytes(Xor(c, Word(bs)), |bs|)
    decreases |bs|
  {
    hide Append, ByteStep, ZeroByte;
    if bs == [] {
      XorZero(c);
    } else {
      var rest := bs[1..];
      WordFits(rest);
      FitsFewer(Word(rest));
      CrcOfWord(ByteStep(c, bs[0]), rest);
      Absorb(c, bs[0], Word(rest));
    }
  }

  lemma XorZero(c: bv32)
    ensures Xor(c, 0) == c && Xor(0, c) == c
  {
  }

  /** Splitting a buffer composes: the CRC can be run piecewise. */
  lemma {:induction false} CrcConcat(c: bv32, a: seq<bv8>, b: seq<bv8>)
    ensures Crc(c, a + b) == Crc(Crc(c, a), b)
    decreases |a|
  {
    hide ByteStep;
    if a == [] {
      assert a + b == b;
    } else {
      assert (a + b)[1..] == a[1..] + b;
      CrcConcat(ByteStep(c, a[0]), a[1..], b);
    }
  }

  // ----- four table look-ups replace four zero bytes

  function Byte(x: bv32, k: nat): bv32
    requires k < 4
  {
    match k
    case 0 => x & 0xFF
    case 1 => (x >> 8) & 0xFF
    case 2 => (x >> 16) & 0xFF
    case _ => (x >> 24) & 0xFF
  }

  /** A byte moved up k places in the register. */
  function Up(y: bv32, k: nat): bv32
    requires k < 4
  {
    match k
    case 0 => y
    case 1 => y << 8
    case 2 => y << 16
    case _ => y << 24
  }

  lemma SplitWord(x: bv32)
    ensures Xor(Xor(Byte(x, 0), Up(Byte(x, 1), 1)), Xor(Up(Byte(x, 2), 2), Up(Byte(x, 3), 3))) == x
  {
  }

  lemma BytesFit(x: bv32)
    ensures Byte(x, 1) & 0xFF == Byte(x, 1) && Byte(x, 2) & 0xFF == Byte(x, 2) && Byte(x, 3) & 0xFF == Byte(x, 3)
  {
  }

  lemma ByteMovesDown(y: bv32)
    requires y & 0xFF == y
    ensures ZeroByte(Up(y, 1)) == y && ZeroByte(Up(y, 2)) == Up(y, 1) && ZeroByte(Up(y, 3)) == Up(y, 2)
  {
    hide ZeroByte;
    ByteShifts(y);
    ShiftOut(y << 8);
    ShiftOut(y << 16);
    ShiftOut(y << 24);
  }

  lemma ByteShifts(y: bv32)
    requires y & 0xFF == y
    ensures (y << 8) & 0xFF == 0 && (y << 16) & 0xFF == 0 && (y << 24) & 0xFF == 0
    ensures (y << 8) >> 8 == y && (y << 16) >> 8 == y << 8 && (y << 24) >> 8 == y << 16
  {
  }

  /** 4 + m zero bytes, by one look-up for each byte of the register. */
  lemma FourLookups(x: bv32, m: nat)
    ensures ZeroBytes(x, m + 4) ==
            Xor(Xor(Table(m + 4, Byte(x, 0)), Table(m + 3, Byte(x, 1))),
                Xor(Table(m + 2, Byte(x, 2)), Table(m + 1, Byte(x, 3))))
  {
    hide Xor, ZeroBytes, Byte, Up;
    var a, b, c, d := Byte(x, 0), Up(Byte(x, 1), 1), Up(Byte(x, 2), 2), Up(Byte(x, 3), 3);
    SplitWord(x);
    ZeroBytesLinear(Xor(a, b), Xor(c, d), m + 4);
    ZeroBytesLinear(a, b, m + 4);
    ZeroBytesLinear(c, d, m + 4);
    BytesFit(x);
    LookupShifted(Byte(x, 1), m);
    LookupShifted(Byte(x, 2), m);
    LookupShifted(Byte(x, 3), m);
  }

  lemma LookupShifted(y: bv32, m: nat)
    requires y & 0xFF == y
    ensures ZeroBytes(Up(y, 1), m + 4) == ZeroBytes(y, m + 3)
    ensures ZeroBytes(Up(y, 2), m + 4) == ZeroBytes(y, m + 2)
    ensures ZeroBytes(Up(y, 3), m + 4) == ZeroBytes(y, m + 1)
  {
    hide ZeroByte, Up;
    ByteMovesDown(y);
    assert ZeroBytes(Up(y, 3), m + 4) == ZeroBytes(Up(y, 2), m + 3) == ZeroBytes(Up(y, 1), m + 2);
    assert ZeroBytes(Up(y, 2), m + 4) == ZeroBytes(Up(y, 1), m + 3);
  }

  /** The main step of slicing-by-8: eight bytes, eight look-ups. */
  lemma EightBytes(c: bv32, first: seq<bv8>, second: seq<bv8>)
    requires |first| == 4 && |second| == 4
    ensures Crc(c, first + second) ==
            Xor(ZeroBytes(Xor(c, Word(first)), 8), ZeroBytes(Word(second), 4))
  {
    hide Xor, ZeroByte, Word;
    var x := Xor(c, Word(first));
    CrcConcat(c, first, second);
    CrcOfWord(c, first);
    CrcOfWord(ZeroBytes(x, 4), second);
    ZeroBytesLinear(ZeroBytes(x, 4), Word(second), 4);
    ZeroBytesCompose(x, 4, 4);
  }

  // ----- the two loops of the source

  lemma HighBytesOnly(c: bv32, b: bv8)
    ensures Xor(c, Wide(b)) >> 8 == c >> 8
  {
    WideFits(b);
    HighBytes(c, Wide(b));
  }

  lemma HighBytes(c: bv32, w: bv32)
    requires w & 0xFF == w
    ensures (c ^ w) >> 8 == c >> 8
  {
  }

  /** One byte as the source processes it. */
  method TableByte(crc: bv32, b: bv8) returns (r: bv32)
    ensures r == ByteStep(crc, b)
  {
    hide ZeroByte, Xor;
    HighBytesOnly(crc, b);
    TableStep(Xor(crc, Wide(b)));
    r := Xor(Table(1, Xor(crc, Wide(b)) & 0xFF), crc >> 8);
  }

  /** crc32c: the byte-by-byte loop. */
  method ByteLoop(running: bv32, buf: seq<bv8>) returns (crc: bv32)
    ensures crc == Crc(running, buf)
  {
    hide ByteStep;
    crc := running;
    for i := 0 to |buf|
      invariant Crc(crc, buf[i..]) == Crc(running, buf)
    {
      crc := TableByte(crc, buf[i]);
      assert buf[i..][1..] == buf[i + 1..];
    }
  }

  function LowByte(x: bv32): bv32 { x & 0xFF }

  function Shift8(x: bv32): bv32 { x >> 8 }

  function Shift16(x: bv32): bv32 { x >> 16 }

  lemma TopHalf(x: bv32)
    ensures LowByte(Shift16(x)) == Byte(x, 2) && LowByte(Shift8(Shift16(x))) == Byte(x, 3)
    ensures LowByte(x) == Byte(x, 0) && LowByte(Shift8(x)) == Byte(x, 1)
  {
  }

  lemma Regroup(a: bv32, b: bv32, c: bv32, d: bv32)
    ensures Xor(Xor(Xor(a, b), c), d) == Xor(Xor(a, b), Xor(c, d))
  {
    hide Xor;
    XorAssoc(Xor(a, b), c, d);
  }

  /** The first half of the body of the main loop: four look-ups for the register and the first word. */
  method FirstFour(running: bv32, block: bv32) returns (crc: bv32)
    ensures crc == ZeroBytes(Xor(running, block), 8)
  {
    hide ZeroBytes, Byte, Xor, LowByte, Shift8, Shift16, Table;
    crc := Xor(running, block);
    ghost var x := crc;
    TopHalf(x);
    var term1 := Xor(Table(8, LowByte(crc)), Table(7, LowByte(Shift8(crc))));
    var term2 := Shift16(crc);
    crc := Xor(Xor(term1, Table(6, LowByte(term2))), Table(5, LowByte(Shift8(term2))));
    FourLookups(x, 4);
    Regroup(Table(8, Byte(x, 0)), Table(7, Byte(x, 1)), Table(6, Byte(x, 2)), Table(5, Byte(x, 3)));
  }

  /** The second half: four look-ups for the second word. */
  method SecondFour(running: bv32, block: bv32) returns (crc: bv32)
    ensures crc == Xor(running, ZeroBytes(block, 4))
  {
    hide ZeroBytes, Byte, Xor, LowByte, Shift8, Shift16, Table;
    TopHalf(block);
    var term1 := Xor(Table(4, LowByte(block)), Table(3, LowByte(Shift8(block))));
    var term2 := Shift16(block);
    crc := Xor(Xor(Xor(running, term1), Table(2, LowByte(term2))), Table(1, LowByte(Shift8(term2))));
    FourLookups(block, 0);
    Regroup(running, term1, Table(2, Byte(block, 2)), Table(1, Byte(block, 3)));
    XorAssoc(running, term1, Xor(Table(2, Byte(block, 2)), Table(1, Byte(block, 3))));
  }

  /** The body of the main loop of crc32c_sb8_64_bit. */
  method EightAtOnce(running: bv32, first: seq<bv8>, second: seq<bv8>) returns (crc: bv32)
    requires |first| == 4 && |second| == 4
    ensures crc == Crc(running, first + second)
  {
    hide Word, ZeroBytes, Xor, Crc;
    crc := FirstFour(running, Word(first));
    crc := SecondFour(crc, Word(second));
    EightBytes(running, first, second);
  }

  /** Bytes from address addr up to the next multiple of four. */
  function InitBytes(addr: nat): (n: nat)
    ensures n < 4 && (addr + n) % 4 == 0
  {
    (4 - addr % 4) % 4
  }

  /**
   crc32c_sb8_64_bit on a buffer at address addr. The source subtracts
   InitBytes(addr) from the length without a check.
   */
  method SlicingBy8(running: bv32, addr: nat, buf: seq<bv8>) returns (crc: bv32)
    requires InitBytes(addr) <= |buf|
    ensures crc == Crc(running, buf)
  {
    hide Crc;
    var initBytes := InitBytes(addr);
    var runningLength := (|buf| - initBytes) / 8 * 8;
    var endBytes := |buf| - initBytes - runningLength;
    crc := ByteLoop(running, buf[..initBytes]);
    ghost var lead := crc;
    var rounds := runningLength / 8;
    var main := buf[initBytes..initBytes + 8 * rounds];
    crc := EightLoop(crc, rounds, main);
    ghost var middle := crc;
    crc := ByteLoop(crc, buf[|buf| - endBytes..]);
    CrcConcat(lead, main, buf[|buf| - endBytes..]);
    assert main + buf[|buf| - endBytes..] == buf[initBytes..];
    CrcConcat(running, buf[..initBytes], buf[initBytes..]);
    assert buf[..initBytes] + buf[initBytes..] == buf;
  }

  /** The main loop of crc32c_sb8_64_bit: eight bytes a round. */
  method EightLoop(running: bv32, rounds: nat, buf: seq<bv8>) returns (crc: bv32)
    requires |buf| == 8 * rounds
    ensures crc == Crc(running, buf)
  {
    crc := running;
    var p := 0;
    for li := 0 to rounds
      invariant p == 8 * li && Crc(crc, buf[p..]) == Crc(running, buf)
    {
      var first, second := buf[p..p + 4], buf[p + 4..p + 8];
      ghost var before := crc;
      crc := EightAtOnce(crc, first, second);
      EightMore(buf, p, before);
      p := p + 8;
    }
    assert buf[p..] == [];
  }

  lemma EightMore(buf: seq<bv8>, p: nat, c: bv32)
    requires p + 8 <= |buf|
    ensures Crc(c, buf[p..]) == Crc(Crc(c, buf[p..p + 4] + buf[p + 4..p + 8]), buf[p + 8..])
  {
    hide Crc;
    var eight := buf[p..p + 4] + buf[p + 4..p + 8];
    assert buf[p..] == eight + buf[p + 8..];
    CrcConcat(c, eight, buf[p + 8..]);
  }

  /** How many bytes crc32c_sb8_64_bit reads, in the unsigned arithmetic of the source. */
  function BytesRead(addr: nat, length: nat): nat {
    var init := InitBytes(addr);
    var left := (length - init) % TWO64;
    var running := left / 8 * 8;
    init + running + (left - running)
  }

  /** It stays inside the buffer exactly when the buffer reaches the first aligned address. */
  lemma ReadsInsideIffLongEnough(addr: nat, length: nat)
    requires length < TWO64
    ensures BytesRead(addr, length) == length <==> InitBytes(addr) <= length
    ensures InitBytes(addr) > length ==> BytesRead(addr, length) > length
  {
  }

  lemma ShortUnalignedBufferOverruns()
    ensures BytesRead(1, 2) == TWO64 + 2
  {
  }
}
