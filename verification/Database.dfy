/**
 The database container of src/database.c: a 104-byte header in memory, a
 32-byte header in serialised form, and the bytecode placed at a 64-byte
 boundary inside the allocation.
 */
module Database {
  import opened Common
  import opened Crc32c
  import CrcReference
  import Arena

  const MAGIC: bv32 := 0xdbdbdbdb

  /** sizeof(struct hs_database), and the serialised header that precedes the bytecode. */
  const STRUCT_SIZE := 104
  const SERIAL_HEADER := 32
  /** End of the last header field; what follows up to STRUCT_SIZE is padding. */
  const FIELDS_END := 40

  datatype Header = Header(magic: bv32, version: bv32, length: bv32, platform: bv64,
                           crc32: bv32, reserved0: bv32, reserved1: bv32)

  /** The version and platform constants of the running library. */
  datatype Library = Library(version: bv32, platform: bv64, noAvx2: bv64, noAvx512: bv64, noVbmi: bv64) {
    predicate Accepts(p: bv64) {
      p == platform || p == platform | noAvx2 || p == platform | noAvx512 || p == platform | noVbmi
    }
  }

  // ----- little-endian words in memory

  function Low8(x: bv32): bv8 { (x & 0xFF) as bv8 }

  function StoreU32(x: bv32): (s: seq<bv8>)
    ensures |s| == 4
  {
    [Low8(x), Low8(x >> 8), Low8(x >> 16), Low8(x >> 24)]
  }

  function LoadU32(s: seq<bv8>): bv32
    requires |s| == 4
  {
    (s[0] as bv32) | ((s[1] as bv32) << 8) | ((s[2] as bv32) << 16) | ((s[3] as bv32) << 24)
  }

  lemma LoadStoreU32(x: bv32)
    ensures LoadU32(StoreU32(x)) == x
  {
    Low8Wide(x);
    Low8Wide(x >> 8);
    Low8Wide(x >> 16);
    Low8Wide(x >> 24);
    JoinBytes(x);
  }

  lemma Low8Wide(x: bv32)
    ensures Low8(x) as bv32 == x & 0xFF
  {
  }

  lemma JoinBytes(x: bv32)
    ensures (x & 0xFF) | (((x >> 8) & 0xFF) << 8) | (((x >> 16) & 0xFF) << 16) | (((x >> 24) & 0xFF) << 24) == x
  {
  }

  function StoreU64(x: bv64): (s: seq<bv8>)
    ensures |s| == 8
  {
    StoreU32((x & 0xFFFFFFFF) as bv32) + StoreU32((x >> 32) as bv32)
  }

  function LoadU64(s: seq<bv8>): bv64
    requires |s| == 8
  {
    (LoadU32(s[..4]) as bv64) | ((LoadU32(s[4..]) as bv64) << 32)
  }

  lemma LoadStoreU64(x: bv64)
    ensures LoadU64(StoreU64(x)) == x
  {
    hide LoadU32, StoreU32;
    var a, b := (x & 0xFFFFFFFF) as bv32, (x >> 32) as bv32;
    assert StoreU64(x)[..4] == StoreU32(a) && StoreU64(x)[4..] == StoreU32(b);
    LoadStoreU32(a);
    LoadStoreU32(b);
    JoinHalves(x);
  }

  lemma JoinHalves(x: bv64)
    ensures (((x & 0xFFFFFFFF) as bv32) as bv64) | ((((x >> 32) as bv32) as bv64) << 32) == x
  {
  }

  // ----- layouts

  function Zeros(n: nat): (s: seq<bv8>)
    ensures |s| == n
  {
    seq(n, _ => 0)
  }

  /** The serialised header: eight packed words. */
  function PackedHeader(h: Header): (s: seq<bv8>)
    ensures |s| == SERIAL_HEADER
  {
    StoreU32(h.magic) + StoreU32(h.version) + StoreU32(h.length) + StoreU64(h.platform) +
    StoreU32(h.crc32) + StoreU32(h.reserved0) + StoreU32(h.reserved1)
  }

  /** What hs_serialize_database produces: packed header, bytecode, zero fill to the in-memory size. */
  function SerializedForm(h: Header, code: seq<bv8>): (s: seq<bv8>)
    ensures |s| == STRUCT_SIZE + |code|
  {
    PackedHeader(h) + code + Zeros(STRUCT_SIZE - SERIAL_HEADER)
  }

  /** The fields of struct hs_database, with four bytes of alignment before `platform`. */
  function StructFields(h: Header, bytecode: bv32): (s: seq<bv8>)
    ensures |s| == FIELDS_END
  {
    StoreU32(h.magic) + StoreU32(h.version) + StoreU32(h.length) + Zeros(4) + StoreU64(h.platform) +
    StoreU32(h.crc32) + StoreU32(h.reserved0) + StoreU32(h.reserved1) + StoreU32(bytecode)
  }

  /** db_copy_bytecode's offset: `bytes` moved down to a 64-byte boundary. */
  function BytecodeOffset(addr: nat): (off: nat)
    ensures off <= STRUCT_SIZE && (addr + off) % 64 == 0
    ensures addr % 8 == 0 ==> FIELDS_END <= off && off % 8 == 0
  {
    MovedDown(addr);
    STRUCT_SIZE - (addr + STRUCT_SIZE) % 64
  }

  lemma MovedDown(addr: nat)
    ensures var off := STRUCT_SIZE - (addr + STRUCT_SIZE) % 64;
            (addr + off) % 64 == 0 && (addr % 8 == 0 ==> FIELDS_END <= off && off % 8 == 0)
  {
    var x := addr + STRUCT_SIZE;
    var q, r := x / 64, x % 64;
    var off := STRUCT_SIZE - r;
    assert x == 64 * q + r;
    Arena.SameRemainder(addr + off, 64, q, 0);
    if addr % 8 == 0 {
      var k := addr / 8 + 13 - 8 * q;
      assert r == 8 * k;
      Arena.SameRemainder(off, 8, 13 - k, 0);
    }
  }

  function OffsetWord(off: nat): bv32
    requires FIELDS_END <= off <= STRUCT_SIZE && off % 8 == 0
  {
    match off
    case 40 => 40
    case 48 => 48
    case 56 => 56
    case 64 => 64
    case 72 => 72
    case 80 => 80
    case 88 => 88
    case 96 => 96
    case _ => 104
  }

  lemma OffsetWordReadsBack(off: nat)
    requires FIELDS_END <= off <= STRUCT_SIZE && off % 8 == 0
    ensures OffsetWord(off) as nat == off
  {
  }

  /** The memory a deserialised database occupies at address addr. */
  function Image(h: Header, code: seq<bv8>, addr: nat): (s: seq<bv8>)
    requires addr % 8 == 0
    ensures |s| == STRUCT_SIZE + |code|
  {
    var off := BytecodeOffset(addr);
    Splice(StructFields(h, OffsetWord(off)) + Zeros(STRUCT_SIZE - FIELDS_END + |code|), off, code)
  }

  function ReadHeader(mem: seq<bv8>): Header
    requires |mem| >= FIELDS_END
  {
    Header(LoadU32(mem[0..4]), LoadU32(mem[4..8]), LoadU32(mem[8..12]), LoadU64(mem[16..24]),
           LoadU32(mem[24..28]), LoadU32(mem[28..32]), LoadU32(mem[32..36]))
  }

  function ReadOffset(mem: seq<bv8>): nat
    requires |mem| >= FIELDS_END
  {
    LoadU32(mem[36..40]) as nat
  }

  function ReadPacked(bytes: seq<bv8>): Header
    requires |bytes| >= SERIAL_HEADER
  {
    Header(LoadU32(bytes[0..4]), LoadU32(bytes[4..8]), LoadU32(bytes[8..12]), LoadU64(bytes[12..20]),
           LoadU32(bytes[20..24]), LoadU32(bytes[24..28]), LoadU32(bytes[28..32]))
  }

  lemma Seven<T>(a: seq<T>, b: seq<T>, c: seq<T>, d: seq<T>, e: seq<T>, f: seq<T>, g: seq<T>, rest: seq<T>)
    requires |a| == |b| == |c| == |e| == |f| == |g| == 4 && |d| == 8
    ensures var s := a + b + c + d + e + f + g + rest;
            && s[0..4] == a && s[4..8] == b && s[8..12] == c && s[12..20] == d
            && s[20..24] == e && s[24..28] == f && s[28..32] == g
  {
  }

  lemma Nine<T>(a: seq<T>, b: seq<T>, c: seq<T>, z: seq<T>, d: seq<T>, e: seq<T>, f: seq<T>, g: seq<T>, h: seq<T>,
                rest: seq<T>)
    requires |a| == |b| == |c| == |z| == |e| == |f| == |g| == |h| == 4 && |d| == 8
    ensures var s := a + b + c + z + d + e + f + g + h + rest;
            && s[0..4] == a && s[4..8] == b && s[8..12] == c && s[16..24] == d
            && s[24..28] == e && s[28..32] == f && s[32..36] == g && s[36..40] == h
  {
  }

  lemma PackedReadsBack(h: Header, rest: seq<bv8>)
    ensures ReadPacked(PackedHeader(h) + rest) == h
  {
    hide LoadU32, StoreU32, LoadU64, StoreU64;
    Seven(StoreU32(h.magic), StoreU32(h.version), StoreU32(h.length), StoreU64(h.platform),
          StoreU32(h.crc32), StoreU32(h.reserved0), StoreU32(h.reserved1), rest);
    WordsReadBack(h);
  }

  lemma WordsReadBack(h: Header)
    ensures LoadU32(StoreU32(h.magic)) == h.magic && LoadU32(StoreU32(h.version)) == h.version
    ensures LoadU32(StoreU32(h.length)) == h.length && LoadU64(StoreU64(h.platform)) == h.platform
    ensures LoadU32(StoreU32(h.crc32)) == h.crc32
    ensures LoadU32(StoreU32(h.reserved0)) == h.reserved0 && LoadU32(StoreU32(h.reserved1)) == h.reserved1
  {
    hide LoadU32, StoreU32, LoadU64, StoreU64;
    LoadStoreU32(h.magic);
    LoadStoreU32(h.version);
    LoadStoreU32(h.length);
    LoadStoreU64(h.platform);
    LoadStoreU32(h.crc32);
    LoadStoreU32(h.reserved0);
    LoadStoreU32(h.reserved1);
  }

  lemma StructReadsBack(h: Header, bytecode: bv32, rest: seq<bv8>)
    ensures ReadHeader(StructFields(h, bytecode) + rest) == h
    ensures ReadOffset(StructFields(h, bytecode) + rest) == bytecode as nat
  {
    hide LoadU32, StoreU32, LoadU64, StoreU64, Zeros;
    Nine(StoreU32(h.magic), StoreU32(h.version), StoreU32(h.length), Zeros(4), StoreU64(h.platform),
         StoreU32(h.crc32), StoreU32(h.reserved0), StoreU32(h.reserved1), StoreU32(bytecode), rest);
    WordsReadBack(h);
    LoadStoreU32(bytecode);
  }

  /**
   A deserialised database at any 8-byte aligned address: all header fields
   and the bytecode read back, the bytecode 64-byte aligned, clear of the
   fields and inside the allocation.
   */
  lemma ImageReadsBack(h: Header, code: seq<bv8>, addr: nat)
    requires addr % 8 == 0
    ensures var mem, off := Image(h, code, addr), BytecodeOffset(addr);
            && ReadHeader(mem) == h && ReadOffset(mem) == off
            && mem[off..off + |code|] == code
            && (addr + off) % 64 == 0 && FIELDS_END <= off && off + |code| <= |mem|
  {
    hide StructFields, ReadHeader, ReadOffset, Zeros, OffsetWord;
    var mem, off := Image(h, code, addr), BytecodeOffset(addr);
    var fields := StructFields(h, OffsetWord(off));
    SpliceAfter(fields, Zeros(STRUCT_SIZE - FIELDS_END + |code|), off, code);
    StructReadsBack(h, OffsetWord(off), mem[FIELDS_END..]);
    OffsetWordReadsBack(off);
  }

  lemma SpliceAfter(a: seq<bv8>, b: seq<bv8>, off: nat, data: seq<bv8>)
    requires |a| <= off && off + |data| <= |a| + |b|
    ensures var s := Splice(a + b, off, data);
            s == a + s[|a|..] && s[off..off + |data|] == data
  {
  }

  // ----- serialising

  method ZeroedArray(n: nat) returns (a: array<bv8>)
    ensures fresh(a) && a.Length == n && a[..] == Zeros(n)
  {
    a := new bv8[n](_ => 0);
    assert forall k :: 0 <= k < n ==> a[k] == Zeros(n)[k];
  }

  method CopyInto(a: array<bv8>, off: nat, data: seq<bv8>)
    requires off + |data| <= a.Length
    modifies a
    ensures a[..] == Splice(old(a[..]), off, data)
  {
    for i := 0 to |data|
      invariant forall k :: 0 <= k < a.Length ==>
                  a[k] == if off <= k < off + i then data[k - off] else old(a[k])
    {
      a[off + i] := data[i];
    }
    assert forall k :: 0 <= k < a.Length ==> a[k] == Splice(old(a[..]), off, data)[k];
  }

  /** A database in memory whose bytecode lies inside it, as every constructor leaves it. */
  ghost predicate InMemory(mem: seq<bv8>) {
    && |mem| >= FIELDS_END
    && ReadOffset(mem) + ReadHeader(mem).length as nat <= |mem|
  }

  ghost function CodeOf(mem: seq<bv8>): seq<bv8>
    requires InMemory(mem)
  {
    mem[ReadOffset(mem)..ReadOffset(mem) + ReadHeader(mem).length as nat]
  }

  function ValidDatabase(lib: Library, h: Header): int {
    if h.magic != MAGIC then HS_INVALID
    else if h.version != lib.version then HS_DB_VERSION_ERROR
    else HS_SUCCESS
  }

  /** hs_serialize_database, of a database at address addr. */
  method Serialize(lib: Library, addr: nat, mem: seq<bv8>) returns (rc: int, bytes: seq<bv8>)
    requires InMemory(mem)
    ensures rc == if addr % 8 != 0 then HS_BAD_ALIGN else ValidDatabase(lib, ReadHeader(mem))
    ensures rc == HS_SUCCESS ==> bytes == SerializedForm(ReadHeader(mem), CodeOf(mem))
    ensures rc != HS_SUCCESS ==> bytes == []
  {
    hide ReadHeader, ReadOffset, PackedHeader, Zeros, SerializedForm;
    bytes := [];
    if addr % 8 != 0 {
      return HS_BAD_ALIGN, [];
    }
    var h := ReadHeader(mem);
    rc := ValidDatabase(lib, h);
    if rc != HS_SUCCESS {
      return;
    }
    var length := STRUCT_SIZE + h.length as nat;
    var code := mem[ReadOffset(mem)..ReadOffset(mem) + h.length as nat];
    var out := ZeroedArray(length);
    CopyInto(out, 0, PackedHeader(h));
    CopyInto(out, SERIAL_HEADER, code);
    bytes := out[..];
    SplicedForm(h, code);
  }

  lemma SplicedForm(h: Header, code: seq<bv8>)
    ensures Splice(Splice(Zeros(STRUCT_SIZE + |code|), 0, PackedHeader(h)), SERIAL_HEADER, code) ==
            SerializedForm(h, code)
  {
    hide PackedHeader;
    var a := Splice(Zeros(STRUCT_SIZE + |code|), 0, PackedHeader(h));
    assert a[..SERIAL_HEADER] == PackedHeader(h);
    assert a[SERIAL_HEADER + |code|..] == Zeros(STRUCT_SIZE - SERIAL_HEADER);
  }

  // ----- deserialising

  datatype Decoded = Bad(code: int) | Good(header: Header)

  /** db_decode_header. */
  function DecodeHeader(lib: Library, bytes: seq<bv8>): Decoded {
    if |bytes| < STRUCT_SIZE then Bad(HS_INVALID)
    else
      var h := ReadPacked(bytes);
      if h.magic != MAGIC then Bad(HS_INVALID)
      else if h.version != lib.version then Bad(HS_DB_VERSION_ERROR)
      else if |bytes| != STRUCT_SIZE + h.length as nat then Bad(HS_INVALID)
      else Good(h)
  }

  /** The serialised bytecode that follows the packed header. */
  function PackedCode(bytes: seq<bv8>): seq<bv8>
    requires |bytes| >= STRUCT_SIZE
  {
    bytes[SERIAL_HEADER..|bytes| - (STRUCT_SIZE - SERIAL_HEADER)]
  }

  /** What hs_deserialize_database_at answers. */
  function DeserializeCode(lib: Library, bytes: seq<bv8>, addr: nat): int {
    if addr % 8 != 0 then HS_BAD_ALIGN
    else match DecodeHeader(lib, bytes)
      case Bad(code) => code
      case Good(h) =>
        if !lib.Accepts(h.platform) then HS_DB_PLATFORM_ERROR
        else if Crc(0, PackedCode(bytes)) != h.crc32 then HS_INVALID
        else HS_SUCCESS
  }

  lemma AlignedHasNoLead(addr: nat)
    requires addr % 64 == 0
    ensures InitBytes(addr) == 0
  {
    var j := 16 * (addr / 64);
    assert addr == 4 * j;
    assert addr % 4 == 0 by { MultipleOfFour(j); }
  }

  lemma MultipleOfFour(j: nat)
    ensures (4 * j) % 4 == 0
  {
  }

  /** db_check_crc: the bytecode is 64-byte aligned, so slicing-by-8 never underflows its length. */
  method CheckCrc(addr: nat, code: seq<bv8>, crc32: bv32) returns (ok: bool)
    requires addr % 64 == 0
    ensures ok == (Crc(0, code) == crc32)
  {
    hide Crc;
    AlignedHasNoLead(addr);
    var crc := SlicingBy8(0, addr, code);
    ok := crc == crc32;
  }

  /** hs_deserialize_database_at, into memory at address addr; hs_deserialize_database does the same on fresh memory. */
  method DeserializeAt(lib: Library, bytes: seq<bv8>, addr: nat, db: array<bv8>) returns (rc: int)
    requires db.Length >= |bytes|
    modifies db
    ensures rc == DeserializeCode(lib, bytes, addr)
    ensures rc == HS_SUCCESS ==>
              db[..] == Image(ReadPacked(bytes), PackedCode(bytes), addr) + old(db[..])[|bytes|..]
    ensures addr % 8 != 0 || DecodeHeader(lib, bytes).Bad? || !lib.Accepts(ReadPacked(bytes).platform) ==>
              db[..] == old(db[..])
  {
    hide ReadPacked, StructFields, Zeros, Crc;
    if addr % 8 != 0 {
      return HS_BAD_ALIGN;
    }
    var decoded := DecodeHeader(lib, bytes);
    if decoded.Bad? {
      return decoded.code;
    }
    var h := decoded.header;
    if !lib.Accepts(h.platform) {
      return HS_DB_PLATFORM_ERROR;
    }
    var code := PackedCode(bytes);
    var off := BytecodeOffset(addr);
    CopyInto(db, 0, Zeros(|bytes|));
    CopyInto(db, 0, StructFields(h, OffsetWord(off)));
    CopyInto(db, off, code);
    WrittenImage(old(db[..]), h, code, addr);
    var ok := CheckCrc(addr + off, code, h.crc32);
    rc := if ok then HS_SUCCESS else HS_INVALID;
  }

  lemma WrittenImage(before: seq<bv8>, h: Header, code: seq<bv8>, addr: nat)
    requires addr % 8 == 0 && |before| >= STRUCT_SIZE + |code|
    ensures var n, off := STRUCT_SIZE + |code|, BytecodeOffset(addr);
            Splice(Splice(Splice(before, 0, Zeros(n)), 0, StructFields(h, OffsetWord(off))), off, code)
            == Image(h, code, addr) + before[n..]
  {
    hide StructFields;
    var n, off := STRUCT_SIZE + |code|, BytecodeOffset(addr);
    var fields := StructFields(h, OffsetWord(off));
    var a := Splice(Splice(before, 0, Zeros(n)), 0, fields);
    assert a == (fields + Zeros(n - FIELDS_END)) + before[n..];
    assert Splice(a, off, code) == Splice(fields + Zeros(n - FIELDS_END), off, code) + before[n..];
  }

  // ----- what the container guarantees

  lemma SerializedReadsBack(h: Header, code: seq<bv8>)
    ensures ReadPacked(SerializedForm(h, code)) == h && PackedCode(SerializedForm(h, code)) == code
  {
    hide PackedHeader, ReadPacked;
    var bytes := SerializedForm(h, code);
    assert bytes == PackedHeader(h) + (code + Zeros(STRUCT_SIZE - SERIAL_HEADER));
    PackedReadsBack(h, code + Zeros(STRUCT_SIZE - SERIAL_HEADER));
  }

  /** A database ready to be serialised: valid, for this platform, its CRC matching. */
  ghost predicate Intact(lib: Library, h: Header, code: seq<bv8>) {
    h.magic == MAGIC && h.version == lib.version && lib.Accepts(h.platform) &&
    h.length as nat == |code| && Crc(0, code) == h.crc32
  }

  /**
   Deserialising a serialised database succeeds at every 8-byte aligned
   address, and the image it leaves holds the same header and bytecode, so
   serialising it again gives identical bytes.
   */
  lemma RoundTrip(lib: Library, h: Header, code: seq<bv8>, addr: nat)
    requires Intact(lib, h, code) && addr % 8 == 0
    ensures var bytes, mem := SerializedForm(h, code), Image(h, code, addr);
            && DeserializeCode(lib, bytes, addr) == HS_SUCCESS
            && Image(ReadPacked(bytes), PackedCode(bytes), addr) == mem
            && InMemory(mem) && ValidDatabase(lib, ReadHeader(mem)) == HS_SUCCESS
            && SerializedForm(ReadHeader(mem), CodeOf(mem)) == bytes
  {
    hide ReadPacked, ReadHeader, ReadOffset, Image, SerializedForm, Crc;
    SerializedReadsBack(h, code);
    ImageReadsBack(h, code, addr);
  }

  /** Whatever is accepted serialises back to its canonical form: the same with the fill zeroed. */
  lemma AcceptedIsCanonicalised(lib: Library, bytes: seq<bv8>, addr: nat)
    requires DeserializeCode(lib, bytes, addr) == HS_SUCCESS
    ensures Intact(lib, ReadPacked(bytes), PackedCode(bytes))
    ensures var mem := Image(ReadPacked(bytes), PackedCode(bytes), addr);
            && InMemory(mem)
            && SerializedForm(ReadHeader(mem), CodeOf(mem)) == SerializedForm(ReadPacked(bytes), PackedCode(bytes))
  {
    hide ReadPacked, ReadHeader, ReadOffset, Image, SerializedForm, Crc;
    ImageReadsBack(ReadPacked(bytes), PackedCode(bytes), addr);
  }

  /** Corrupting up to four consecutive bytes of the bytecode is always caught. */
  lemma CorruptionIsCaught(lib: Library, h: Header, code: seq<bv8>, corrupt: seq<bv8>, addr: nat, i: nat, j: nat)
    requires Intact(lib, h, code) && addr % 8 == 0
    requires |corrupt| == |code| && i <= j <= |code| && j - i <= 4
    requires corrupt[..i] == code[..i] && corrupt[j..] == code[j..] && corrupt != code
    ensures DeserializeCode(lib, SerializedForm(h, corrupt), addr) == HS_INVALID
  {
    hide ReadPacked, SerializedForm, Crc;
    SerializedReadsBack(h, corrupt);
    CrcReference.BurstIsDetected(0, corrupt, code, i, j);
  }

  /** hs_database_size of a database in memory. */
  function DatabaseSize(lib: Library, h: Header): (int, nat) {
    var rc := ValidDatabase(lib, h);
    (rc, if rc == HS_SUCCESS then STRUCT_SIZE + h.length as nat else 0)
  }

  /** hs_serialized_database_size. */
  function SerializedSize(lib: Library, bytes: seq<bv8>): (int, nat) {
    match DecodeHeader(lib, bytes)
    case Bad(code) => (code, 0)
    case Good(h) => (HS_SUCCESS, STRUCT_SIZE + h.length as nat)
  }

  /** Both size queries give the length of the serialised form, which is also the size of the image. */
  lemma SizesAgree(lib: Library, h: Header, code: seq<bv8>, addr: nat)
    requires Intact(lib, h, code) && addr % 8 == 0
    ensures DatabaseSize(lib, h) == SerializedSize(lib, SerializedForm(h, code))
    ensures DatabaseSize(lib, h) == (HS_SUCCESS, |SerializedForm(h, code)|)
    ensures |Image(h, code, addr)| == |SerializedForm(h, code)|
  {
    hide ReadPacked, SerializedForm, Crc;
    SerializedReadsBack(h, code);
  }
}
