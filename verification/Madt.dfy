// The interrupt controller table: finding it by signature and checksum, and
// walking its length-prefixed records.
module Madt {
  import opened Bits

  const HEADER := 44
  const MIN_TABLE := 36
  const MAX_TABLE_LENGTH := 1024 * 1024
  const MAX_IOAPICS := 16

  datatype IoApic = IoApic(id: Byte, address: U32, gsiBase: U32)

  // ---- The records, as the ACPI specification lays them out ----

  datatype Record =
    | LocalApic(processor: Byte, apicId: Byte, flags: U32, more: seq<Byte>)
    | IoApicRecord(ioapic: IoApic, reserved: Byte, more: seq<Byte>)
    | Other(kind: Byte, body: seq<Byte>)

  // A record is at most 255 bytes long. One of kind 0 or 1 that is too short
  // for its fields is some other record.
  predicate WellFormed(r: Record)
  {
    match r
    case LocalApic(_, _, _, more) => |more| <= 247
    case IoApicRecord(_, _, more) => |more| <= 243
    case Other(kind, body) => |body| <= if kind == 0 then 5 else if kind == 1 then 9 else 253
  }

  predicate AllWellFormed(rs: seq<Record>)
  {
    forall i :: 0 <= i < |rs| ==> WellFormed(rs[i])
  }

  function Bytes16(n: nat): (b: seq<Byte>)
    requires n < 0x1_0000
    ensures |b| == 2 && Read16(b, 0) == n
  {
    [n % 0x100, n / 0x100]
  }

  function Bytes32(n: U32): (b: seq<Byte>)
    ensures |b| == 4 && Read32(b, 0) == n
    ensures b[0] == n % 0x1_0000 % 0x100
  {
    var low, high := Bytes16(n % 0x1_0000), Bytes16(n / 0x1_0000);
    assert Read16(low + high, 0) == Read16(low, 0) && Read16(low + high, 2) == Read16(high, 0);
    low + high
  }

  function Encode(r: Record): (b: seq<Byte>)
    requires WellFormed(r)
    ensures 2 <= |b| <= 255 && b[1] == |b|
  {
    match r
    case LocalApic(processor, apicId, flags, more) =>
      [0, 8 + |more|, processor, apicId] + Bytes32(flags) + more
    case IoApicRecord(io, reserved, more) =>
      [1, 12 + |more|, io.id, reserved] + Bytes32(io.address) + Bytes32(io.gsiBase) + more
    case Other(kind, body) => [kind, |body| + 2] + body
  }

  function EncodeAll(rs: seq<Record>): seq<Byte>
    requires AllWellFormed(rs)
  {
    if rs == [] then [] else Encode(rs[0]) + EncodeAll(rs[1..])
  }

  // ---- What the records say ----

  predicate Enabled(r: Record) { r.LocalApic? && r.flags % 2 == 1 }

  function EnabledCount(rs: seq<Record>): nat
  {
    if rs == [] then 0 else (if Enabled(rs[0]) then 1 else 0) + EnabledCount(rs[1..])
  }

  function IoApics(rs: seq<Record>): seq<IoApic>
  {
    if rs == [] then []
    else (if rs[0].IoApicRecord? then [rs[0].ioapic] else []) + IoApics(rs[1..])
  }

  function Upto(ios: seq<IoApic>, n: nat): seq<IoApic>
  {
    if |ios| <= n then ios else ios[..n]
  }

  // ---- The walk ----

  datatype Parsed = Parsed(processors: nat, ioapics: seq<IoApic>)

  /** What one record at `offset` of length `length` adds. */
  function Apply(madt: seq<Byte>, offset: nat, length: nat, p: Parsed): Parsed
    requires 2 <= length && offset + length <= |madt|
  {
    if madt[offset] == 0 && length >= 8 && madt[offset + 4] % 2 != 0 then p.(processors := p.processors + 1)
    else if madt[offset] == 1 && length >= 12 && |p.ioapics| < MAX_IOAPICS then
      p.(ioapics := p.ioapics
                    + [IoApic(madt[offset + 2], Read32(madt, offset + 4), Read32(madt, offset + 8))])
    else p
  }

  /** The walk from `offset` to the end of the table or the first broken record. */
  function Parse(madt: seq<Byte>, offset: nat, p: Parsed): Parsed
    requires offset <= |madt|
    decreases |madt| - offset
  {
    if offset + 2 > |madt| then p
    else
      var length := madt[offset + 1];
      if length < 2 || offset + length > |madt| then p
      else Parse(madt, offset + length, Apply(madt, offset, length, p))
  }

  /** What a record adds, whatever its bytes. */
  function ApplyRecord(r: Record, p: Parsed): Parsed
  {
    if Enabled(r) then p.(processors := p.processors + 1)
    else if r.IoApicRecord? && |p.ioapics| < MAX_IOAPICS then p.(ioapics := p.ioapics + [r.ioapic])
    else p
  }

  lemma ApplyIsRecord(front: seq<Byte>, r: Record, back: seq<Byte>, p: Parsed)
    requires WellFormed(r)
    ensures Apply(front + Encode(r) + back, |front|, |Encode(r)|, p) == ApplyRecord(r, p)
  {
  }

  lemma ParseStep(front: seq<Byte>, r: Record, back: seq<Byte>, p: Parsed)
    requires WellFormed(r)
    ensures Parse(front + Encode(r) + back, |front|, p) ==
            Parse(front + Encode(r) + back, |front + Encode(r)|, ApplyRecord(r, p))
  {
    hide Apply, ApplyRecord, Bytes32;
    var b := Encode(r);
    var madt := front + b + back;
    assert madt[|front| + 1] == b[1] == |b|;
    ApplyIsRecord(front, r, back, p);
  }

  /** No whole record: too short for a record's header, or with a length that is too short or too long. */
  predicate Broken(tail: seq<Byte>)
  {
    |tail| < 2 || tail[1] < 2 || tail[1] > |tail|
  }

  lemma {:induction false} ParseEncoded(front: seq<Byte>, rs: seq<Record>, tail: seq<Byte>, p: Parsed)
    requires AllWellFormed(rs) && |p.ioapics| <= MAX_IOAPICS && Broken(tail)
    ensures var q := Parse(front + EncodeAll(rs) + tail, |front|, p);
            && q.processors == p.processors + EnabledCount(rs)
            && q.ioapics == Upto(p.ioapics + IoApics(rs), MAX_IOAPICS)
    decreases |rs|
  {
    hide Parse, Encode, Upto, Broken;
    if rs == [] {
      assert front + [] + tail == front + tail;
      ParseNothing(front, tail, p);
    } else {
      var b, back := Encode(rs[0]), EncodeAll(rs[1..]);
      assert front + EncodeAll(rs) + tail == front + b + (back + tail) == front + b + back + tail;
      ParseStep(front, rs[0], back + tail, p);
      AppliedIoApics(rs, p);
      ParseEncoded(front + b, rs[1..], tail, ApplyRecord(rs[0], p));
    }
  }

  lemma ParseNothing(front: seq<Byte>, tail: seq<Byte>, p: Parsed)
    requires |p.ioapics| <= MAX_IOAPICS && Broken(tail)
    ensures Parse(front + tail, |front|, p) == p && Upto(p.ioapics + [], MAX_IOAPICS) == p.ioapics
  {
    hide Apply;
    assert |tail| >= 2 ==> (front + tail)[|front| + 1] == tail[1];
  }

  lemma AppliedIoApics(rs: seq<Record>, p: Parsed)
    requires rs != [] && |p.ioapics| <= MAX_IOAPICS
    ensures var p' := ApplyRecord(rs[0], p);
            && |p'.ioapics| <= MAX_IOAPICS
            && Upto(p'.ioapics + IoApics(rs[1..]), MAX_IOAPICS) == Upto(p.ioapics + IoApics(rs), MAX_IOAPICS)
  {
    hide Upto;
    var rest := IoApics(rs[1..]);
    var front := if rs[0].IoApicRecord? then [rs[0].ioapic] else [];
    assert IoApics(rs) == front + rest;
    AppendUpto(p.ioapics, front, rest);
    assert p.ioapics + [] == p.ioapics;
  }

  // What comes after the first 16 is dropped, early or late.
  lemma AppendUpto(ios: seq<IoApic>, front: seq<IoApic>, rest: seq<IoApic>)
    requires |ios| <= MAX_IOAPICS && |front| <= 1
    ensures Upto((if |ios| < MAX_IOAPICS then ios + front else ios) + rest, MAX_IOAPICS) ==
            Upto(ios + (front + rest), MAX_IOAPICS)
  {
    hide Upto;
    if |ios| < MAX_IOAPICS {
      assert ios + (front + rest) == (ios + front) + rest;
    } else {
      UptoFull(ios, front + rest);
      UptoFull(ios, rest);
    }
  }

  lemma UptoFull(ios: seq<IoApic>, more: seq<IoApic>)
    requires |ios| == MAX_IOAPICS
    ensures Upto(ios + more, MAX_IOAPICS) == ios
  {
  }

  // Round trip: a table of any well-formed records, up to the first broken one
  // if there is one, is read back as its enabled processors and its first 16
  // I/O controllers, in order.
  lemma TableRoundTrip(header: seq<Byte>, rs: seq<Record>, tail: seq<Byte>)
    requires |header| == 44 && AllWellFormed(rs) && Broken(tail)
    ensures Parse(header + EncodeAll(rs) + tail, HEADER, Parsed(0, []))
         == Parsed(EnabledCount(rs), Upto(IoApics(rs), 16))
  {
    ParseEncoded(header, rs, tail, Parsed(0, []));
    assert [] + IoApics(rs) == IoApics(rs);
  }

  // ---- Finding the table ----

  /** Physical memory as the parser reads it. */
  type Memory = nat -> Byte

  function SumBytes(mem: Memory, address: nat, length: nat): nat
  {
    if length == 0 then 0 else SumBytes(mem, address, length - 1) + mem(address + length - 1)
  }

  predicate ChecksumOk(mem: Memory, address: nat, length: nat)
  {
    SumBytes(mem, address, length) % 256 == 0
  }

  function Mem32(mem: Memory, a: nat): U32
  {
    Read32([mem(a), mem(a + 1), mem(a + 2), mem(a + 3)], 0)
  }

  function Mem64(mem: Memory, a: nat): nat
  {
    Mem32(mem, a) + LIMIT32 * Mem32(mem, a + 4)
  }

  /** A table named "APIC" of acceptable length with a zero checksum. */
  predicate IsMadt(mem: Memory, a: nat)
  {
    && a != 0
    && 36 <= Mem32(mem, a + 4) <= 0x10_0000
    && mem(a) == 65 && mem(a + 1) == 80 && mem(a + 2) == 73 && mem(a + 3) == 67
    && ChecksumOk(mem, a, Mem32(mem, a + 4))
  }

  predicate GoodRoot(mem: Memory, root: nat)
  {
    root != 0 && 36 <= Mem32(mem, root + 4) <= 0x10_0000
    && ChecksumOk(mem, root, Mem32(mem, root + 4))
  }

  /** The i-th table address of a root table with 4- or 8-byte entries. */
  function RootEntry(mem: Memory, root: nat, entrySize: nat, i: nat): nat
  {
    if entrySize == 8 then Mem64(mem, root + MIN_TABLE + i * entrySize)
    else Mem32(mem, root + MIN_TABLE + i * entrySize)
  }

  // ---- Root tables as the ACPI specification lays them out ----

  /** The addresses of a root table, each in `entrySize` little-endian bytes. */
  function EncodeRootEntries(addresses: seq<nat>, entrySize: nat): (b: seq<Byte>)
    requires entrySize == 4 || entrySize == 8
    requires forall i :: 0 <= i < |addresses| ==>
               addresses[i] < if entrySize == 4 then 0x1_0000_0000 else 0x1_0000_0000_0000_0000
    ensures |b| == |addresses| * entrySize
  {
    if addresses == [] then []
    else
      var last := addresses[|addresses| - 1];
      var front := EncodeRootEntries(addresses[..|addresses| - 1], entrySize);
      if entrySize == 4 then front + Bytes32(last)
      else front + Bytes32(last % LIMIT32) + Bytes32(last / LIMIT32)
  }

  /** A root table: the 36-byte header, whose bytes 4 to 7 are the length, and the addresses. */
  function EncodeRoot(signature: seq<Byte>, rest: seq<Byte>, addresses: seq<nat>, entrySize: nat): seq<Byte>
    requires entrySize == 4 || entrySize == 8
    requires forall i :: 0 <= i < |addresses| ==>
               addresses[i] < if entrySize == 4 then 0x1_0000_0000 else 0x1_0000_0000_0000_0000
    requires |signature| == 4 && |rest| == 28 && 36 + |addresses| * entrySize < 0x1_0000_0000
  {
    signature + Bytes32(36 + |addresses| * entrySize) + rest + EncodeRootEntries(addresses, entrySize)
  }

  /** These bytes are in memory from `a` on. */
  ghost predicate Holds(mem: Memory, a: nat, bytes: seq<Byte>)
  {
    forall i :: 0 <= i < |bytes| ==> mem(a + i) == bytes[i]
  }

  lemma HoldsPart(mem: Memory, a: nat, front: seq<Byte>, part: seq<Byte>, back: seq<Byte>)
    requires Holds(mem, a, front + part + back)
    ensures Holds(mem, a, front) && Holds(mem, a + |front|, part) && Holds(mem, a + |front| + |part|, back)
  {
    var bytes := front + part + back;
    forall i | 0 <= i < |front| ensures mem(a + i) == front[i] { assert bytes[i] == front[i]; }
    forall i | 0 <= i < |part| ensures mem(a + |front| + i) == part[i] {
      assert mem(a + (|front| + i)) == bytes[|front| + i] == part[i];
    }
    forall i | 0 <= i < |back| ensures mem(a + |front| + |part| + i) == back[i] {
      assert mem(a + (|front| + |part| + i)) == bytes[|front| + |part| + i] == back[i];
    }
  }

  lemma WordHeld(mem: Memory, a: nat, n: U32)
    requires Holds(mem, a, Bytes32(n))
    ensures Mem32(mem, a) == n
  {
    var b := Bytes32(n);
    assert mem(a + 0) == b[0] && mem(a + 1) == b[1] && mem(a + 2) == b[2] && mem(a + 3) == b[3];
    assert [mem(a), mem(a + 1), mem(a + 2), mem(a + 3)] == b;
  }

  lemma {:induction false} EntryHeld(mem: Memory, a: nat, addresses: seq<nat>, entrySize: nat, i: nat)
    requires entrySize == 4 || entrySize == 8
    requires forall i :: 0 <= i < |addresses| ==>
               addresses[i] < if entrySize == 4 then 0x1_0000_0000 else 0x1_0000_0000_0000_0000
    requires i < |addresses| && Holds(mem, a, EncodeRootEntries(addresses, entrySize))
    ensures (if entrySize == 8 then Mem64(mem, a + i * entrySize) else Mem32(mem, a + i * entrySize)) == addresses[i]
  {
    hide Holds, Mem32, Bytes32;
    var n := |addresses| - 1;
    var last := addresses[n];
    var front := EncodeRootEntries(addresses[..n], entrySize);
    if entrySize == 4 {
      assert EncodeRootEntries(addresses, entrySize) == front + Bytes32(last) + [];
      HoldsPart(mem, a, front, Bytes32(last), []);
      if i == n {
        WordHeld(mem, a + |front|, last);
      } else {
        EntryHeld(mem, a, addresses[..n], entrySize, i);
      }
    } else {
      HoldsPart(mem, a, front, Bytes32(last % LIMIT32), Bytes32(last / LIMIT32));
      if i == n {
        WordHeld(mem, a + |front|, last % LIMIT32);
        WordHeld(mem, a + |front| + |Bytes32(last % LIMIT32)|, last / LIMIT32);
      } else {
        EntryHeld(mem, a, addresses[..n], entrySize, i);
      }
    }
  }

  // Round trip: the finder reads back the length, the number of entries and
  // every address of a root table, with 4- and with 8-byte entries.
  lemma RootRoundTrip(mem: Memory, root: nat, signature: seq<Byte>, rest: seq<Byte>, addresses: seq<nat>,
                      entrySize: nat, i: nat)
    requires entrySize == 4 || entrySize == 8
    requires forall i :: 0 <= i < |addresses| ==>
               addresses[i] < if entrySize == 4 then 0x1_0000_0000 else 0x1_0000_0000_0000_0000
    requires |signature| == 4 && |rest| == 28 && 36 + |addresses| * entrySize < 0x1_0000_0000
    requires Holds(mem, root, EncodeRoot(signature, rest, addresses, entrySize))
    ensures Mem32(mem, root + 4) == 36 + |addresses| * entrySize
    ensures (Mem32(mem, root + 4) - MIN_TABLE) / entrySize == |addresses|
    ensures i < |addresses| ==> RootEntry(mem, root, entrySize, i) == addresses[i]
  {
    hide Holds, Mem32, Bytes32, EncodeRootEntries;
    var length := Bytes32(36 + |addresses| * entrySize);
    var entries := EncodeRootEntries(addresses, entrySize);
    assert EncodeRoot(signature, rest, addresses, entrySize) == signature + length + (rest + entries);
    HoldsPart(mem, root, signature, length, rest + entries);
    WordHeld(mem, root + 4, 36 + |addresses| * entrySize);
    assert rest + entries == rest + entries + [];
    BytesLength(36 + |addresses| * entrySize);
    HoldsPart(mem, root + 8, rest, entries, []);
    QuotientIs(|addresses| * entrySize, entrySize, |addresses|, 0);
    if i < |addresses| {
      EntryHeld(mem, root + 36, addresses, entrySize, i);
    }
  }

  lemma BytesLength(n: U32)
    ensures |Bytes32(n)| == 4
  {
  }

  lemma SumWraps(sum: nat, b: Byte)
    ensures (sum % 256 + b) % 256 == (sum + b) % 256
  {
    var q, r := sum / 256, sum % 256;
    if r + b < 256 {
      QuotientIs(sum + b, 256, q, r + b);
    } else {
      QuotientIs(r + b, 256, 1, r + b - 256);
      QuotientIs(sum + b, 256, q + 1, r + b - 256);
    }
  }

  method ChecksumValid(mem: Memory, address: nat, length: nat) returns (valid: bool)
    ensures valid <==> ChecksumOk(mem, address, length)
  {
    var checksum := 0;
    for index := 0 to length
      invariant checksum == SumBytes(mem, address, index) % 256
    {
      SumWraps(SumBytes(mem, address, index), mem(address + index));
      checksum := (checksum + mem(address + index)) % 256;
    }
    valid := checksum == 0;
  }

  // Returns the first table that qualifies, and 0 exactly when none does.
  method FindTable(mem: Memory, root: nat, entrySize: nat) returns (table: nat)
    requires entrySize == 4 || entrySize == 8
    ensures !GoodRoot(mem, root) ==> table == 0
    ensures GoodRoot(mem, root) && table == 0 ==>
              forall i :: 0 <= i < (Mem32(mem, root + 4) - MIN_TABLE) / entrySize ==>
                            !IsMadt(mem, RootEntry(mem, root, entrySize, i))
    ensures table != 0 ==> IsMadt(mem, table)
    ensures table != 0 ==>
              exists k :: 0 <= k < (Mem32(mem, root + 4) - MIN_TABLE) / entrySize
                          && table == RootEntry(mem, root, entrySize, k)
                          && forall i :: 0 <= i < k ==> !IsMadt(mem, RootEntry(mem, root, entrySize, i))
  {
    hide ChecksumOk, Mem32, RootEntry;
    if root == 0 {
      return 0;
    }
    var length := Mem32(mem, root + 4);
    if length < MIN_TABLE || length > MAX_TABLE_LENGTH {
      return 0;
    }
    var rootValid := ChecksumValid(mem, root, length);
    if !rootValid {
      return 0;
    }
    for index := 0 to (length - MIN_TABLE) / entrySize
      invariant forall i :: 0 <= i < index ==> !IsMadt(mem, RootEntry(mem, root, entrySize, i))
    {
      var address := RootEntry(mem, root, entrySize, index);
      if address == 0 {
        continue;
      }
      var tableLength := Mem32(mem, address + 4);
      if tableLength >= MIN_TABLE && tableLength <= MAX_TABLE_LENGTH &&
         mem(address) == 65 && mem(address + 1) == 80 && mem(address + 2) == 73 && mem(address + 3) == 67 {
        var valid := ChecksumValid(mem, address, tableLength);
        if valid {
          return address;
        }
      }
    }
    return 0;
  }

  // ---- Parsing it in memory ----

  function TableBytes(mem: Memory, madt: nat, length: nat): (bytes: seq<Byte>)
    ensures |bytes| == length && forall i :: 0 <= i < length ==> bytes[i] == mem(madt + i)
  {
    seq(length, i requires 0 <= i < length => mem(madt + i))
  }

  lemma TableReads(mem: Memory, madt: nat, length: nat, offset: nat)
    requires offset + 4 <= length
    ensures Read32(TableBytes(mem, madt, length), offset) == Mem32(mem, madt + offset)
  {
  }

  /** What the records of a table add; without a whole header it has none. */
  function Records(mem: Memory, madt: nat, length: nat, p: Parsed): Parsed
  {
    if length < HEADER then p else Parse(TableBytes(mem, madt, length), HEADER, p)
  }

  // A table of `n` bytes at address 1000: its name, its length and a byte that
  // makes the checksum zero.
  function ShortTable(n: Byte): Memory
    requires MIN_TABLE <= n < 40
  {
    (a: nat) =>
      if a == 1000 then 65 else if a == 1001 then 80 else if a == 1002 then 73 else if a == 1003 then 67
      else if a == 1004 then n else if a == 1009 then 227 - n else 0
  }

  lemma {:induction false} ShortTableSum(n: Byte, k: nat)
    requires MIN_TABLE <= n < 40
    ensures k >= 10 ==> SumBytes(ShortTable(n), 1000, k) == 512
    ensures 5 <= k < 10 ==> SumBytes(ShortTable(n), 1000, k) == 285 + n
  {
    if k > 5 {
      ShortTableSum(n, k - 1);
    } else if k == 5 {
      var mem := ShortTable(n);
      assert SumBytes(mem, 1000, 1) == 65;
      assert SumBytes(mem, 1000, 2) == 145;
      assert SumBytes(mem, 1000, 3) == 218;
      assert SumBytes(mem, 1000, 4) == 285;
    }
  }

  // The finder accepts tables of 36 to 39 bytes, which the parser reads past.
  lemma FinderAcceptsShortTables(n: Byte)
    requires MIN_TABLE <= n < 40
    ensures IsMadt(ShortTable(n), 1000) && Mem32(ShortTable(n), 1004) == n
  {
    hide SumBytes;
    ShortTableSum(n, n);
    var mem := ShortTable(n);
    assert [mem(1004), mem(1005), mem(1006), mem(1007)] == [n, 0, 0, 0];
  }

  // ---- The parser object ----

  class InterruptTopology {
    var localApicAddress: U32
    var processorCount: nat
    var ioapicCount: nat
    const ioapics: array<IoApic>

    ghost predicate Valid()
      reads this
    {
      ioapics.Length == MAX_IOAPICS && ioapicCount <= MAX_IOAPICS
    }

    ghost function Found(): Parsed
      reads this, ioapics
      requires Valid()
    {
      Parsed(processorCount, ioapics[..ioapicCount])
    }

    constructor ()
      ensures Valid() && fresh(ioapics) && Found() == Parsed(0, [])
    {
      ioapics := new IoApic[MAX_IOAPICS](i => IoApic(0, 0, 0));
      localApicAddress, processorCount, ioapicCount := 0, 0, 0;
    }

    // Reads one byte of the table and notes how far into it reads have gone.
    static method Load(mem: Memory, madt: nat, offset: nat, ghost reach: nat) returns (b: Byte, ghost reach': nat)
      ensures b == mem(madt + offset) && reach' == if reach <= offset then offset + 1 else reach
    {
      b := mem(madt + offset);
      reach' := if reach <= offset then offset + 1 else reach;
    }

    static method Load32(mem: Memory, madt: nat, offset: nat, ghost reach: nat) returns (w: U32, ghost reach': nat)
      ensures w == Mem32(mem, madt + offset) && reach' == if reach <= offset + 3 then offset + 4 else reach
    {
      var b0, b1, b2, b3: Byte;
      b0, reach' := Load(mem, madt, offset, reach);
      b1, reach' := Load(mem, madt, offset + 1, reach');
      b2, reach' := Load(mem, madt, offset + 2, reach');
      b3, reach' := Load(mem, madt, offset + 3, reach');
      w := Read32([b0, b1, b2, b3], 0);
    }

    // Walks a table whose declared length the finder accepts. A length that
    // does not cover the header leaves the records unread; and every read
    // stays inside the table if and only if it has at least 40 bytes.
    method ParseMadt(mem: Memory, madt: nat) returns (ghost reach: nat)
      requires Valid() && Mem32(mem, madt + 4) <= MAX_TABLE_LENGTH
      modifies this`localApicAddress, this`processorCount, this`ioapicCount, ioapics
      ensures Valid()
      ensures localApicAddress == Mem32(mem, madt + 36)
      ensures Found() == Records(mem, madt, Mem32(mem, madt + 4), old(Found()))
      ensures reach <= Mem32(mem, madt + 4) <==> Mem32(mem, madt + 4) >= 40
    {
      hide Mem32, Apply;
      localApicAddress, reach := Load32(mem, madt, 36, 0);
      var length: nat;
      length, reach := Load32(mem, madt, 4, reach);
      ghost var bytes := TableBytes(mem, madt, length);
      var offset := HEADER;
      while offset + 2 <= length
        invariant Valid() && localApicAddress == Mem32(mem, madt + 36) && HEADER <= offset
        invariant length >= HEADER ==> offset <= length
        invariant 40 <= reach && (length >= HEADER ==> reach <= length) && (length < HEADER ==> reach == 40)
        invariant length < HEADER ==> Found() == old(Found())
        invariant length >= HEADER ==> Parse(bytes, offset, Found()) == Parse(bytes, HEADER, old(Found()))
      {
        ghost var before := Found();
        var kind: Byte, entryLength: nat;
        kind, reach := Load(mem, madt, offset, reach);
        entryLength, reach := Load(mem, madt, offset + 1, reach);
        if entryLength < 2 || offset + entryLength > length {
          break;
        }
        reach := ReadRecord(mem, madt, offset, kind, entryLength, length, reach);
        assert Found() == Apply(bytes, offset, entryLength, before);
        offset := offset + entryLength;
      }
    }

    // One record of the walk.
    method ReadRecord(mem: Memory, madt: nat, offset: nat, kind: Byte, entryLength: nat, ghost length: nat,
                      ghost reach: nat)
      returns (ghost reach': nat)
      requires Valid() && 2 <= entryLength && offset + entryLength <= length && kind == mem(madt + offset)
      modifies this`processorCount, this`ioapicCount, ioapics
      ensures Valid() && Found() == Apply(TableBytes(mem, madt, length), offset, entryLength, old(Found()))
      ensures reach <= reach' && (reach <= length ==> reach' <= length)
    {
      hide Mem32;
      ghost var bytes := TableBytes(mem, madt, length);
      reach' := reach;
      var flags: Byte := 0;
      if kind == 0 && entryLength >= 8 {
        flags, reach' := Load(mem, madt, offset + 4, reach');
      }
      if kind == 0 && entryLength >= 8 && flags % 2 != 0 {
        processorCount := processorCount + 1;
      } else if kind == 1 && entryLength >= 12 && ioapicCount < MAX_IOAPICS {
        var id: Byte, address: U32, gsiBase: U32;
        id, reach' := Load(mem, madt, offset + 2, reach');
        address, reach' := Load32(mem, madt, offset + 4, reach');
        gsiBase, reach' := Load32(mem, madt, offset + 8, reach');
        TableReads(mem, madt, length, offset + 4);
        TableReads(mem, madt, length, offset + 8);
        ioapics[ioapicCount] := IoApic(id, address, gsiBase);
        ioapicCount := ioapicCount + 1;
        assert ioapics[..ioapicCount] == old(Found()).ioapics + [IoApic(id, address, gsiBase)];
      }
    }
  }
}
