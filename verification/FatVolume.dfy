// A FAT32 volume as a value: the cluster walk the reader makes, the flat file
// it reads and the flat root directory it lists.
module FatVolume {
  import opened Wrappers
  import opened Bits
  import opened ShortNames
  import opened ConsoleText

  const SECTOR_SIZE := 512
  const SLOT_SIZE := 32
  const SLOTS := 16
  const MAX_CLUSTER_STEPS := 1024
  const BAD_CLUSTER := 0x0fff_fff7
  const END_OF_CHAIN := 0x0fff_fff8
  // The largest cluster whose FAT entry the reader looks up.
  const LAST_FOLLOWED := 0x0fff_ffff / 4

  type Sector = s: seq<Byte> | |s| == SECTOR_SIZE witness seq(SECTOR_SIZE, i => 0)
  type Slot = s: seq<Byte> | |s| == SLOT_SIZE witness seq(SLOT_SIZE, i => 0)

  /** The readable sectors of a disk. */
  type Disk = map<nat, Sector>

  datatype Volume = Volume(
    partitionLba: U32, bytesPerSector: nat, sectorsPerCluster: Byte, reservedSectors: nat,
    fatCount: Byte, sectorsPerFat: U32, firstDataLba: U32, rootCluster: U32)

  predicate ValidBootSector(b: Sector)
  {
    && b[510] == 0x55 && b[511] == 0xaa && Read16(b, 11) == SECTOR_SIZE
    && b[13] != 0 && Read16(b, 14) != 0 && b[16] != 0 && Read32(b, 36) != 0 && Read32(b, 44) >= 2
  }

  function VolumeOf(b: Sector, partitionLba: U32): Volume
  {
    Volume(partitionLba, Read16(b, 11), b[13], Read16(b, 14), b[16], Read32(b, 36),
           (partitionLba + Read16(b, 14) + b[16] * Read32(b, 36)) % LIMIT32, Read32(b, 44))
  }

  /** What mounting establishes of a volume. */
  predicate Mountable(v: Volume)
  {
    v.bytesPerSector == SECTOR_SIZE && v.sectorsPerCluster != 0
  }

  // ---- The cluster walk ----

  // The FAT holds 128 entries of four bytes to a sector.
  lemma FatOffset(cluster: nat)
    ensures cluster * 4 / SECTOR_SIZE == cluster / 128 && cluster * 4 % SECTOR_SIZE == cluster % 128 * 4
  {
    QuotientIs(cluster * 4, SECTOR_SIZE, cluster / 128, cluster % 128 * 4);
  }

  /** The FAT entry of a cluster, as the reader sees it. */
  function NextCluster(d: Disk, v: Volume, cluster: U32): U32
    requires Mountable(v)
  {
    if cluster > LAST_FOLLOWED then BAD_CLUSTER
    else
      var fatOffset := cluster * 4;
      var fatSector := (v.partitionLba + v.reservedSectors + fatOffset / v.bytesPerSector) % LIMIT32;
      FatOffset(cluster);
      if fatSector !in d then BAD_CLUSTER
      else Read32(d[fatSector], fatOffset % v.bytesPerSector) % 0x1000_0000
  }

  function ClusterLba(v: Volume, cluster: U32, offset: nat): U32
    requires cluster >= 2
  {
    (v.firstDataLba + (cluster - 2) * v.sectorsPerCluster + offset) % LIMIT32
  }

  predicate InData(cluster: U32)
  {
    2 <= cluster < END_OF_CHAIN
  }

  /** The sectors of one cluster from a given offset on. */
  function ClusterLbas(v: Volume, cluster: U32, offset: nat): seq<U32>
    requires cluster >= 2 && offset <= v.sectorsPerCluster
    decreases v.sectorsPerCluster - offset
  {
    if offset == v.sectorsPerCluster then []
    else [ClusterLba(v, cluster, offset)] + ClusterLbas(v, cluster, offset + 1)
  }

  /** Every sector the reader may visit, in order, when it has taken `steps` steps. */
  function WalkLbas(d: Disk, v: Volume, cluster: U32, steps: nat): seq<U32>
    requires Mountable(v) && steps <= MAX_CLUSTER_STEPS
    decreases MAX_CLUSTER_STEPS - steps
  {
    if steps == MAX_CLUSTER_STEPS || !InData(cluster) then []
    else ClusterLbas(v, cluster, 0) + WalkLbas(d, v, NextCluster(d, v, cluster), steps + 1)
  }

  // ---- The flat file ----

  /** How many sectors a file of this size occupies. */
  function SectorsNeeded(size: nat): nat
  {
    (size + SECTOR_SIZE - 1) / SECTOR_SIZE
  }

  predicate AllReadable(d: Disk, lbas: seq<U32>)
  {
    forall k :: 0 <= k < |lbas| ==> lbas[k] in d
  }

  function SectorBytes(d: Disk, lbas: seq<U32>): (b: seq<Byte>)
    requires AllReadable(d, lbas)
    ensures |b| == SECTOR_SIZE * |lbas|
  {
    if lbas == [] then []
    else SectorBytes(d, lbas[..|lbas| - 1]) + d[lbas[|lbas| - 1]]
  }

  /** The first `size` bytes of the sectors in `lbas`, if there are enough and they are readable. */
  function FlatBytes(d: Disk, lbas: seq<U32>, size: nat): Option<seq<Byte>>
  {
    var n := SectorsNeeded(size);
    if n <= |lbas| && AllReadable(d, lbas[..n]) then Some(SectorBytes(d, lbas[..n])[..size]) else None
  }

  lemma FlatLength(d: Disk, lbas: seq<U32>, size: nat)
    ensures FlatBytes(d, lbas, size).Some? ==> |FlatBytes(d, lbas, size).value| == size
  {
  }

  /** The contents of a file: its sectors concatenated and cut to its size. */
  function FileBytes(d: Disk, v: Volume, cluster: U32, size: nat): Option<seq<Byte>>
    requires Mountable(v)
  {
    FlatBytes(d, WalkLbas(d, v, cluster, 0), size)
  }

  /** `filled` is what the first `done` sectors contribute to the file. */
  predicate Progress(d: Disk, lbas: seq<U32>, size: nat, filled: seq<Byte>, done: nat)
  {
    && done <= SectorsNeeded(size) && done <= |lbas| && AllReadable(d, lbas[..done])
    && |filled| == Min(size, SECTOR_SIZE * done)
    && filled == SectorBytes(d, lbas[..done])[..|filled|]
  }

  /** The first sector from the `k`-th on, below `limit`, that cannot be reached or read. */
  function Reached(d: Disk, lbas: seq<U32>, k: nat, limit: nat): (r: nat)
    requires k <= limit && k <= |lbas| && AllReadable(d, lbas[..k])
    ensures k <= r <= limit && r <= |lbas| && AllReadable(d, lbas[..r])
    ensures r == limit || r == |lbas| || lbas[r] !in d
    decreases limit - k
  {
    if k == limit || k == |lbas| || lbas[k] !in d then k else Reached(d, lbas, k + 1, limit)
  }

  /** What reading a file of this size leaves at the start of the buffer, whether or not it gets to the end. */
  function Filled(d: Disk, lbas: seq<U32>, size: nat): (b: seq<Byte>)
    ensures |b| <= size
  {
    var done := Reached(d, lbas, 0, SectorsNeeded(size));
    SectorBytes(d, lbas[..done])[..Min(size, SECTOR_SIZE * done)]
  }

  lemma {:induction false} ReachedIs(d: Disk, lbas: seq<U32>, k: nat, limit: nat, done: nat)
    requires k <= done <= limit && done <= |lbas| && AllReadable(d, lbas[..done]) && AllReadable(d, lbas[..k])
    requires done == limit || done == |lbas| || lbas[done] !in d
    ensures Reached(d, lbas, k, limit) == done
    decreases done - k
  {
    if k < done {
      assert lbas[..done][k] in d;
      assert forall j :: 0 <= j < k + 1 ==> lbas[..done][j] in d;
      ReachedIs(d, lbas, k + 1, limit, done);
    }
  }

  lemma Uncons(lbas: seq<U32>, done: nat, lba: U32, rest: seq<U32>)
    requires done <= |lbas| && lbas[done..] == [lba] + rest
    ensures done < |lbas| && lbas[done] == lba && lbas[done + 1..] == rest
  {
  }

  lemma ProgressStarts(d: Disk, lbas: seq<U32>, size: nat)
    ensures Progress(d, lbas, size, [], 0)
  {
  }

  lemma ProgressSteps(d: Disk, lbas: seq<U32>, size: nat, filled: seq<Byte>, done: nat)
    requires Progress(d, lbas, size, filled, done) && |filled| < size && done < |lbas| && lbas[done] in d
    ensures Progress(d, lbas, size, filled + d[lbas[done]][..Min(size - |filled|, SECTOR_SIZE)], done + 1)
  {
    assert lbas[..done + 1][..done] == lbas[..done];
    assert SectorBytes(d, lbas[..done + 1]) == SectorBytes(d, lbas[..done]) + d[lbas[done]];
    assert filled == SectorBytes(d, lbas[..done]);
  }

  // Short of the end, with no further sector to read, there is no such file.
  lemma ProgressStuck(d: Disk, lbas: seq<U32>, size: nat, filled: seq<Byte>, done: nat)
    requires Progress(d, lbas, size, filled, done) && |filled| < size
    requires done == |lbas| || lbas[done] !in d
    ensures FlatBytes(d, lbas, size) == None && Filled(d, lbas, size) == filled
  {
    ReachedIs(d, lbas, 0, SectorsNeeded(size), done);
  }

  lemma ProgressEnds(d: Disk, lbas: seq<U32>, size: nat, filled: seq<Byte>, done: nat)
    requires Progress(d, lbas, size, filled, done) && |filled| == size
    ensures FlatBytes(d, lbas, size) == Some(filled) && Filled(d, lbas, size) == filled
  {
    assert done == SectorsNeeded(size);
    ReachedIs(d, lbas, 0, SectorsNeeded(size), done);
  }

  // ---- The flat directory ----

  function SlotAt(s: Sector, i: nat): Slot
    requires i < SLOTS
  {
    s[SLOT_SIZE * i..SLOT_SIZE * i + SLOT_SIZE]
  }

  function SlotsFrom(s: Sector, i: nat): seq<Slot>
    requires i <= SLOTS
    decreases SLOTS - i
  {
    if i == SLOTS then [] else [SlotAt(s, i)] + SlotsFrom(s, i + 1)
  }

  /** The directory slots of these sectors, up to the first unreadable one. */
  function DirSlots(d: Disk, lbas: seq<U32>): seq<Slot>
  {
    if lbas == [] || lbas[0] !in d then [] else SlotsFrom(d[lbas[0]], 0) + DirSlots(d, lbas[1..])
  }

  function RootSlots(d: Disk, v: Volume): seq<Slot>
    requires Mountable(v)
  {
    DirSlots(d, WalkLbas(d, v, v.rootCluster, 0))
  }

  const DELETED: Byte := 0xe5
  const LONG_NAME: Byte := 0x0f
  const LABEL: Byte := 0x08

  predicate AtEnd(s: Slot) { s[0] == 0 }

  function Attributes(s: Slot): Byte { s[11] }

  predicate Listed(s: Slot)
  {
    s[0] != DELETED && Attributes(s) != LONG_NAME && Attributes(s) != LABEL
  }

  predicate IsDirectory(s: Slot) { Attributes(s) / 0x10 % 2 == 1 }

  /** Neither the label bit nor the directory bit is set. */
  predicate PlainFile(s: Slot)
  {
    s[0] != DELETED && Attributes(s) != LONG_NAME && Attributes(s) / 0x08 % 4 == 0
  }

  function RawNameOf(s: Slot): RawName { s[..11] }

  function FirstCluster(s: Slot): U32 { Read16(s, 20) * 0x1_0000 + Read16(s, 26) }

  function FileSize(s: Slot): U32 { Read32(s, 28) }

  /** A directory slot laid out as the FAT specification does; times and dates are left zero. */
  function MakeSlot(name: RawName, attributes: Byte, cluster: U32, size: U32): Slot
  {
    name + [attributes] + seq(8, i => 0)
    + [cluster / 0x1_0000 % 0x100, cluster / 0x100_0000] + seq(4, i => 0)
    + [cluster % 0x100, cluster / 0x100 % 0x100]
    + [size % 0x100, size / 0x100 % 0x100, size / 0x1_0000 % 0x100, size / 0x100_0000]
  }

  // Every field of a slot is read back from where it was put.
  lemma SlotRoundTrip(name: RawName, attributes: Byte, cluster: U32, size: U32)
    ensures var s := MakeSlot(name, attributes, cluster, size);
            && RawNameOf(s) == name && Attributes(s) == attributes
            && FirstCluster(s) == cluster && FileSize(s) == size
  {
    var s := MakeSlot(name, attributes, cluster, size);
    assert s[20] == cluster / 0x1_0000 % 0x100 && s[21] == cluster / 0x100_0000;
    assert s[26] == cluster % 0x100 && s[27] == cluster / 0x100 % 0x100;
    assert s[28] == size % 0x100 && s[29] == size / 0x100 % 0x100;
    assert s[30] == size / 0x1_0000 % 0x100 && s[31] == size / 0x100_0000;
    FourBytes(cluster);
    FourBytes(size);
  }

  lemma FourBytes(n: U32)
    ensures n == n % 0x100 + 0x100 * (n / 0x100 % 0x100)
                 + 0x1_0000 * (n / 0x1_0000 % 0x100 + 0x100 * (n / 0x100_0000))
  {
    var low, high := n % 0x1_0000, n / 0x1_0000;
    QuotientIs(n, 0x100, high * 0x100 + low / 0x100, low % 0x100);
    QuotientIs(high * 0x100 + low / 0x100, 0x100, high, low / 0x100);
    QuotientIs(n, 0x100_0000, high / 0x100, high % 0x100 * 0x1_0000 + low);
  }

  /** The listed entries: cut at the first end slot, hidden slots dropped. */
  function Visible(slots: seq<Slot>): seq<Slot>
  {
    if slots == [] || AtEnd(slots[0]) then []
    else (if Listed(slots[0]) then [slots[0]] else []) + Visible(slots[1..])
  }

  /** The first plain file of that name before the end slot. */
  function FindFile(slots: seq<Slot>, name: RawName): Option<Slot>
  {
    if slots == [] || AtEnd(slots[0]) then None
    else if PlainFile(slots[0]) && RawNameOf(slots[0]) == name then Some(slots[0])
    else FindFile(slots[1..], name)
  }

  // The name lookup is exact: it finds the first listed entry of that name
  // with neither the label bit nor the directory bit, and fails exactly when
  // there is none.
  lemma {:induction false} FindFileIsFirstVisible(slots: seq<Slot>, name: RawName)
    ensures var vis := Visible(slots);
            match FindFile(slots, name)
            case Some(s) => exists i :: 0 <= i < |vis| && vis[i] == s && PlainFile(s) && RawNameOf(s) == name
                                        && NoneBefore(vis, name, i)
            case None => NoneBefore(vis, name, |vis|)
  {
    hide Visible, PlainFile, NoneBefore, Listed;
    VisibleStep(slots);
    FindStart(slots, name);
    if slots == [] || AtEnd(slots[0]) {
      NoneBeforeFirst([], name);
    } else {
      var front := if Listed(slots[0]) then [slots[0]] else [];
      var vis, rest := Visible(slots), Visible(slots[1..]);
      PlainFilesAreListed(slots[0]);
      if PlainFile(slots[0]) && RawNameOf(slots[0]) == name {
        NoneBeforeFirst(vis, name);
        assert FindFile(slots, name) == Some(slots[0]);
        assert vis[0] == slots[0] && PlainFile(vis[0]) && RawNameOf(vis[0]) == name && NoneBefore(vis, name, 0);
      } else {
        FindFileIsFirstVisible(slots[1..], name);
        assert FindFile(slots, name) == FindFile(slots[1..], name);
        match FindFile(slots[1..], name) {
          case Some(s) =>
            var i :| 0 <= i < |rest| && rest[i] == s && PlainFile(s) && RawNameOf(s) == name
                     && NoneBefore(rest, name, i);
            ShiftNoneBefore(front, rest, name, i);
            assert vis[|front| + i] == s && PlainFile(s) && RawNameOf(s) == name && NoneBefore(vis, name, |front| + i);
          case None => ShiftNoneBefore(front, rest, name, |rest|);
        }
      }
    }
  }

  lemma VisibleStep(slots: seq<Slot>)
    ensures slots == [] || AtEnd(slots[0]) ==> Visible(slots) == []
    ensures slots != [] && !AtEnd(slots[0]) ==>
              Visible(slots) == (if Listed(slots[0]) then [slots[0]] else []) + Visible(slots[1..])
  {
    hide Listed;
  }

  lemma FindStart(slots: seq<Slot>, name: RawName)
    ensures FindFile(slots, name) ==
            if slots == [] || AtEnd(slots[0]) then None
            else if PlainFile(slots[0]) && RawNameOf(slots[0]) == name then Some(slots[0])
            else FindFile(slots[1..], name)
  {
  }

  lemma NoneBeforeFirst(vis: seq<Slot>, name: RawName)
    ensures NoneBefore(vis, name, 0)
  {
  }

  /** Among the first `n` entries there is no plain file of that name. */
  predicate NoneBefore(vis: seq<Slot>, name: RawName, n: nat)
    requires n <= |vis|
  {
    forall i :: 0 <= i < n ==> !(PlainFile(vis[i]) && RawNameOf(vis[i]) == name)
  }

  lemma ShiftNoneBefore(front: seq<Slot>, rest: seq<Slot>, name: RawName, n: nat)
    requires n <= |rest| && NoneBefore(rest, name, n)
    requires forall i :: 0 <= i < |front| ==> !(PlainFile(front[i]) && RawNameOf(front[i]) == name)
    ensures NoneBefore(front + rest, name, |front| + n)
  {
    hide PlainFile, RawNameOf;
  }

  // The stricter filter of the name lookup only ever drops listed entries, and
  // what it keeps is never a directory.
  lemma PlainFilesAreListed(s: Slot)
    ensures PlainFile(s) ==> Listed(s) && !IsDirectory(s)
  {
  }

  // ---- Reading by index and by name ----

  /** The contents of the file a slot describes. */
  function ReadEntry(d: Disk, v: Volume, entry: Option<Slot>): Option<seq<Byte>>
    requires Mountable(v)
  {
    match entry
    case None => None
    case Some(s) => FileBytes(d, v, FirstCluster(s), FileSize(s))
  }

  /** The visible entry of that index, unless it is a directory. */
  function EntryByIndex(d: Disk, v: Volume, index: nat): Option<Slot>
    requires Mountable(v)
  {
    var vis := Visible(RootSlots(d, v));
    if index >= |vis| || IsDirectory(vis[index]) then None else Some(vis[index])
  }

  function ReadByIndex(d: Disk, v: Volume, index: nat): Option<seq<Byte>>
    requires Mountable(v)
  {
    ReadEntry(d, v, EntryByIndex(d, v, index))
  }

  function ReadByName(d: Disk, v: Volume, name: RawName): Option<seq<Byte>>
    requires Mountable(v)
  {
    ReadEntry(d, v, FindFile(RootSlots(d, v), name))
  }

  /** What reading a slot's file into a buffer of this capacity leaves at its start. */
  function Delivered(d: Disk, v: Volume, entry: Option<Slot>, capacity: nat): (b: seq<Byte>)
    requires Mountable(v)
    ensures |b| <= capacity
  {
    match entry
    case None => []
    case Some(s) =>
      if FileSize(s) > capacity then [] else Filled(d, WalkLbas(d, v, FirstCluster(s), 0), FileSize(s))
  }

  /** The index from `i` on of the first plain file of that name. */
  function FirstPlain(vis: seq<Slot>, name: RawName, i: nat): (r: Option<nat>)
    requires i <= |vis| && NoneBefore(vis, name, i)
    ensures r.Some? ==> i <= r.value < |vis| && PlainFile(vis[r.value]) && RawNameOf(vis[r.value]) == name
                        && NoneBefore(vis, name, r.value)
    ensures r.None? ==> NoneBefore(vis, name, |vis|)
    decreases |vis| - i
  {
    if i == |vis| then None
    else if PlainFile(vis[i]) && RawNameOf(vis[i]) == name then Some(i)
    else FirstPlain(vis, name, i + 1)
  }

  // A directory has fewer entries than 32 bits can count.
  lemma {:induction false} ClusterSize(v: Volume, cluster: U32, offset: nat)
    requires cluster >= 2 && offset <= v.sectorsPerCluster
    ensures |ClusterLbas(v, cluster, offset)| == v.sectorsPerCluster - offset
    decreases v.sectorsPerCluster - offset
  {
    if offset < v.sectorsPerCluster {
      ClusterSize(v, cluster, offset + 1);
    }
  }

  lemma {:induction false} WalkSize(d: Disk, v: Volume, cluster: U32, steps: nat)
    requires Mountable(v) && steps <= MAX_CLUSTER_STEPS
    ensures |WalkLbas(d, v, cluster, steps)| <= 255 * (MAX_CLUSTER_STEPS - steps)
    decreases MAX_CLUSTER_STEPS - steps
  {
    hide NextCluster, ClusterLbas;
    if steps < MAX_CLUSTER_STEPS && InData(cluster) {
      ClusterSize(v, cluster, 0);
      WalkSize(d, v, NextCluster(d, v, cluster), steps + 1);
    }
  }

  lemma {:induction false} SlotsSize(s: Sector, i: nat)
    requires i <= SLOTS
    ensures |SlotsFrom(s, i)| == SLOTS - i
    decreases SLOTS - i
  {
    if i < SLOTS {
      SlotsSize(s, i + 1);
    }
  }

  lemma {:induction false} DirSize(d: Disk, lbas: seq<U32>)
    ensures |DirSlots(d, lbas)| <= SLOTS * |lbas|
  {
    hide SlotsFrom;
    if lbas != [] && lbas[0] in d {
      SlotsSize(d[lbas[0]], 0);
      DirSize(d, lbas[1..]);
    }
  }

  lemma {:induction false} VisibleSize(slots: seq<Slot>)
    ensures |Visible(slots)| <= |slots|
  {
    if slots != [] {
      VisibleSize(slots[1..]);
    }
  }

  lemma IndexFits(d: Disk, v: Volume)
    requires Mountable(v)
    ensures |Visible(RootSlots(d, v))| < LIMIT32
  {
    WalkSize(d, v, v.rootCluster, 0);
    DirSize(d, WalkLbas(d, v, v.rootCluster, 0));
    VisibleSize(RootSlots(d, v));
  }

  // Reading by name is reading by the index of the first plain file of that
  // name, and fails when there is none.
  lemma NameReadsFirstPlain(d: Disk, v: Volume, name: RawName)
    requires Mountable(v)
    ensures ReadByName(d, v, name) ==
            match FirstPlain(Visible(RootSlots(d, v)), name, 0)
            case None => None
            case Some(j) => ReadByIndex(d, v, j)
  {
    hide FileBytes, RootSlots, Visible;
    var vis := Visible(RootSlots(d, v));
    FindFileIsFirstVisible(RootSlots(d, v), name);
    match FirstPlain(vis, name, 0) {
      case None =>
      case Some(j) =>
        PlainFilesAreListed(vis[j]);
        var s := FindFile(RootSlots(d, v), name);
        assert s.Some?;
        var i :| 0 <= i < |vis| && vis[i] == s.value && PlainFile(s.value) && RawNameOf(s.value) == name
                 && NoneBefore(vis, name, i);
        assert i == j;
    }
  }

  // Whatever can be read by name can be read by some index, with the same bytes.
  lemma NameAgreesWithIndex(d: Disk, v: Volume, name: RawName)
    requires Mountable(v) && ReadByName(d, v, name).Some?
    ensures exists i: nat :: i < LIMIT32 && ReadByIndex(d, v, i) == ReadByName(d, v, name)
  {
    hide FileBytes, RootSlots, Visible;
    NameReadsFirstPlain(d, v, name);
    IndexFits(d, v);
    var i := FirstPlain(Visible(RootSlots(d, v)), name, 0).value;
    assert i < LIMIT32 && ReadByIndex(d, v, i) == ReadByName(d, v, name);
  }

  // The converse: the name of the i-th entry leads back to that entry exactly
  // when it has neither label nor directory bit and no other plain file of
  // that name comes first; and its name reads what its index reads exactly when
  // the first plain file of that name, if any, does.
  lemma IndexAgreesWithName(d: Disk, v: Volume, i: nat)
    requires Mountable(v) && i < |Visible(RootSlots(d, v))|
    ensures var vis := Visible(RootSlots(d, v));
            var name := RawNameOf(vis[i]);
            FindFile(RootSlots(d, v), name) == Some(vis[i]) <==>
            PlainFile(vis[i]) && exists j :: 0 <= j <= i && vis[j] == vis[i] && NoneBefore(vis, name, j)
    ensures var vis := Visible(RootSlots(d, v));
            var name := RawNameOf(vis[i]);
            ReadByName(d, v, name) == ReadByIndex(d, v, i) <==>
            match FirstPlain(vis, name, 0)
            case None => ReadByIndex(d, v, i).None?
            case Some(j) => ReadByIndex(d, v, j) == ReadByIndex(d, v, i)
  {
    hide FileBytes, RootSlots, Visible;
    var vis := Visible(RootSlots(d, v));
    var name := RawNameOf(vis[i]);
    NameReadsFirstPlain(d, v, name);
    FindFileIsFirstVisible(RootSlots(d, v), name);
    if FindFile(RootSlots(d, v), name) == Some(vis[i]) {
      var k :| 0 <= k < |vis| && vis[k] == vis[i] && NoneBefore(vis, name, k);
      assert k <= i;
    } else if PlainFile(vis[i]) {
      var s := FindFile(RootSlots(d, v), name);
      assert s.Some?;
      var k :| 0 <= k < |vis| && vis[k] == s.value && PlainFile(s.value) && RawNameOf(s.value) == name
               && NoneBefore(vis, name, k);
      assert forall j :: 0 <= j <= i && vis[j] == vis[i] && NoneBefore(vis, name, j) ==> j == k;
    }
  }

  // ---- A file that has an index and no name ----

  // Eight sectors to a cluster: a root directory of one slot in sector 10, and
  // a file in cluster 3, which begins at sector 18.
  const ONE_FILE_VOLUME := Volume(0, SECTOR_SIZE, 8, 1, 1, 9, 10, 2)

  function OneFileDisk(slot: Slot, data: Sector): Disk
  {
    map[10 := slot + seq(SECTOR_SIZE - SLOT_SIZE, i => 0), 18 := data]
  }

  lemma OneFileVisible(slot: Slot, data: Sector)
    requires !AtEnd(slot) && Listed(slot)
    ensures Visible(RootSlots(OneFileDisk(slot, data), ONE_FILE_VOLUME)) == [slot]
  {
    hide NextCluster, SlotAt, WalkLbas, ClusterLbas, DirSlots, SlotsFrom, Listed, Visible, AtEnd;
    var d, v := OneFileDisk(slot, data), ONE_FILE_VOLUME;
    WalkUnfolds(d, v, 2, 0);
    ScanSector(d, v, 2, 0, WalkLbas(d, v, NextCluster(d, v, 2), 1));
    assert ClusterLba(v, 2, 0) == 10;
    var s: Sector := d[10];
    var tail := DirSlots(d, ClusterLbas(v, 2, 1) + WalkLbas(d, v, NextCluster(d, v, 2), 1));
    ScanSlot(s, 0, tail);
    ScanSlot(s, 1, tail);
    FirstSlots(slot);
    VisibleUpToEnd(slot, SlotAt(s, 1), SlotsFrom(s, 2) + tail);
  }

  lemma VisibleUpToEnd(slot: Slot, end: Slot, rest: seq<Slot>)
    requires !AtEnd(slot) && Listed(slot) && AtEnd(end)
    ensures Visible([slot] + ([end] + rest)) == [slot]
  {
    hide Listed, AtEnd, Visible;
    var slots := [slot] + ([end] + rest);
    assert slots[1..] == [end] + rest;
    VisibleStep(slots);
    VisibleStep(slots[1..]);
  }

  lemma FirstSlots(slot: Slot)
    ensures var s: Sector := slot + seq(SECTOR_SIZE - SLOT_SIZE, i => 0);
            SlotAt(s, 0) == slot && AtEnd(SlotAt(s, 1))
  {
  }

  lemma OneFileReads(slot: Slot, data: Sector)
    requires FirstCluster(slot) == 3 && 1 <= FileSize(slot) <= SECTOR_SIZE
    ensures FileBytes(OneFileDisk(slot, data), ONE_FILE_VOLUME, 3, FileSize(slot)) == Some(data[..FileSize(slot)])
  {
    hide NextCluster, FirstCluster, FileSize, WalkLbas, FlatBytes, ClusterLbas;
    var d, v := OneFileDisk(slot, data), ONE_FILE_VOLUME;
    ClusterHead(v, 3, 0);
    assert ClusterLba(v, 3, 0) == 18;
    WalkUnfolds(d, v, 3, 0);
    OneSectorFile(d, WalkLbas(d, v, 3, 0), FileSize(slot));
  }

  lemma OneSectorFile(d: Disk, lbas: seq<U32>, n: nat)
    requires lbas != [] && lbas[0] in d && 1 <= n <= SECTOR_SIZE
    ensures FlatBytes(d, lbas, n) == Some(d[lbas[0]][..n])
  {
    QuotientIs(n + SECTOR_SIZE - 1, SECTOR_SIZE, 1, n - 1);
    var first := lbas[..1];
    assert AllReadable(d, first) && first[..0] == [];
    var data := d[lbas[0]];
    assert SectorBytes(d, first) == SectorBytes(d, []) + data == data;
  }

  // A listed file is read by its index if and only if the directory bit of its
  // attributes is clear, whatever its name and contents, and by its name if and
  // only if the label bit is clear too. Attributes 0x28, say, are listed and
  // read by index but not by name.
  lemma LabelBitHidesName(name: RawName, attributes: Byte, data: Sector, n: U32)
    requires name[0] != 0 && name[0] != 0xe5 && 1 <= n <= 512
    requires attributes != 0x0f && attributes != 0x08
    ensures var d := OneFileDisk(MakeSlot(name, attributes, 3, n), data);
            && |Visible(RootSlots(d, ONE_FILE_VOLUME))| == 1
            && ReadByIndex(d, ONE_FILE_VOLUME, 0) ==
               (if attributes / 0x10 % 2 == 1 then None else Some(data[..n]))
            && ReadByName(d, ONE_FILE_VOLUME, name) ==
               if attributes / 0x10 % 2 == 1 || attributes / 0x08 % 2 == 1 then None else Some(data[..n])
  {
    hide RootSlots, FileBytes, FirstCluster, FileSize, MakeSlot, PlainFile, Listed, IsDirectory, FirstPlain, AtEnd;
    var slot := MakeSlot(name, attributes, 3, n);
    SlotRoundTrip(name, attributes, 3, n);
    AttributesDecide(slot);
    OneFileVisible(slot, data);
    OneFileReads(slot, data);
    NameReadsFirstPlain(OneFileDisk(slot, data), ONE_FILE_VOLUME, name);
    OneEntryPlain(slot);
  }

  lemma AttributesDecide(slot: Slot)
    requires RawNameOf(slot)[0] != 0 && RawNameOf(slot)[0] != 0xe5
    requires Attributes(slot) != 0x0f && Attributes(slot) != 0x08
    ensures !AtEnd(slot) && Listed(slot) && (IsDirectory(slot) <==> Attributes(slot) / 0x10 % 2 == 1)
    ensures PlainFile(slot) <==> Attributes(slot) / 0x10 % 2 == 0 && Attributes(slot) / 0x08 % 2 == 0
  {
    assert slot[0] == RawNameOf(slot)[0];
    TwoBits(Attributes(slot));
  }

  lemma TwoBits(a: nat)
    ensures a / 8 % 4 == 0 <==> a / 16 % 2 == 0 && a / 8 % 2 == 0
  {
    var q, r := a / 8, a % 8;
    var h := q / 4;
    QuotientIs(a, 16, q / 2, q % 2 * 8 + r);
    QuotientIs(q, 2, 2 * h + q % 4 / 2, q % 4 % 2);
    QuotientIs(q / 2, 2, h, q % 4 / 2);
  }

  lemma OneEntryPlain(slot: Slot)
    ensures FirstPlain([slot], RawNameOf(slot), 0) == if PlainFile(slot) then Some(0) else None
  {
    hide PlainFile, RawNameOf;
  }

  // ---- Slots on the disk ----

  /** Slots one after the other. */
  function JoinSlots(slots: seq<Slot>): (b: seq<Byte>)
    ensures |b| == 32 * |slots|
  {
    if slots == [] then [] else JoinSlots(slots[..|slots| - 1]) + slots[|slots| - 1]
  }

  lemma {:induction false} JoinedAt(slots: seq<Slot>, i: nat)
    requires i < |slots|
    ensures |JoinSlots(slots)| == 32 * |slots| && JoinSlots(slots)[32 * i..32 * i + 32] == slots[i]
  {
    hide JoinSlots;
    var n := |slots| - 1;
    JoinStep(slots);
    if i < n {
      JoinedAt(slots[..n], i);
      TakeFromFront(JoinSlots(slots[..n]), slots[n], 32 * i, 32);
    }
  }

  lemma JoinStep(slots: seq<Slot>)
    requires slots != []
    ensures var n := |slots| - 1;
            && |JoinSlots(slots[..n])| == 32 * n && JoinSlots(slots) == JoinSlots(slots[..n]) + slots[n]
            && |JoinSlots(slots)| == 32 * n + 32
  {
  }

  lemma TakeFromFront(front: seq<Byte>, back: seq<Byte>, i: nat, n: nat)
    requires i + n <= |front|
    ensures (front + back)[i..i + n] == front[i..i + n]
  {
  }

  lemma {:induction false} SlotsReadBack(slots: seq<Slot>, s: Sector, i: nat)
    requires |slots| == 16 && s == JoinSlots(slots) && i <= 16
    ensures SlotsFrom(s, i) == slots[i..]
    decreases 16 - i
  {
    if i < 16 {
      JoinedAt(slots, i);
      SlotsReadBack(slots, s, i + 1);
      assert slots[i..] == [slots[i]] + slots[i + 1..];
    }
  }

  // A directory is read back slot by slot from the sectors it fills.
  lemma {:induction false} DirectoryReadsBack(d: Disk, lbas: seq<U32>, sectors: seq<seq<Slot>>)
    requires |sectors| == |lbas|
    requires forall i :: 0 <= i < |lbas| ==> |sectors[i]| == 16 && lbas[i] in d && d[lbas[i]] == JoinSlots(sectors[i])
    ensures DirSlots(d, lbas) == Flattened(sectors)
  {
    if lbas != [] {
      SlotsReadBack(sectors[0], d[lbas[0]], 0);
      DirectoryReadsBack(d, lbas[1..], sectors[1..]);
    }
  }

  function Flattened(sectors: seq<seq<Slot>>): seq<Slot>
  {
    if sectors == [] then [] else sectors[0] + Flattened(sectors[1..])
  }

  // ---- What is listed ----

  /** No slot up to the i-th begins with a zero byte. */
  predicate NoEndUpTo(slots: seq<Slot>, i: nat)
    requires i < |slots|
  {
    forall j :: 0 <= j <= i ==> slots[j][0] != 0
  }

  /** The i-th slot is in use: not past the end, not deleted, not part of a long name and not the label. */
  predicate InUse(slots: seq<Slot>, i: nat)
    requires i < |slots|
  {
    var s := slots[i];
    NoEndUpTo(slots, i) && s[0] != 0xe5 && s[11] != 0x0f && s[11] != 0x08
  }

  function UsedBefore(slots: seq<Slot>, n: nat): seq<Slot>
    requires n <= |slots|
  {
    if n == 0 then [] else UsedBefore(slots, n - 1) + if InUse(slots, n - 1) then [slots[n - 1]] else []
  }

  lemma FirstInUse(slots: seq<Slot>)
    requires slots != [] && slots[0][0] != 0
    ensures InUse(slots, 0) <==> Listed(slots[0])
  {
  }

  lemma {:induction false} UsedTail(slots: seq<Slot>, n: nat)
    requires 1 <= n <= |slots| && slots[0][0] != 0
    ensures UsedBefore(slots, n) == (if Listed(slots[0]) then [slots[0]] else []) + UsedBefore(slots[1..], n - 1)
    decreases n
  {
    FirstInUse(slots);
    if n > 1 {
      UsedTail(slots, n - 1);
      assert NoEndUpTo(slots, n - 1) <==> NoEndUpTo(slots[1..], n - 2) by {
        assert forall j :: 1 <= j <= n - 1 ==> slots[j] == slots[1..][j - 1];
      }
    }
  }

  // The visible entries are exactly the slots in use, in order.
  lemma {:induction false} VisibleIsUsed(slots: seq<Slot>)
    ensures Visible(slots) == UsedBefore(slots, |slots|)
  {
    hide Listed, InUse;
    VisibleStep(slots);
    if slots != [] {
      if AtEnd(slots[0]) {
        NothingUsed(slots, |slots|);
      } else {
        UsedTail(slots, |slots|);
        VisibleIsUsed(slots[1..]);
      }
    }
  }

  lemma {:induction false} NothingUsed(slots: seq<Slot>, n: nat)
    requires n <= |slots| && slots != [] && slots[0][0] == 0
    ensures UsedBefore(slots, n) == []
  {
    if n > 0 {
      NothingUsed(slots, n - 1);
      assert slots[0][0] == 0;
    }
  }

  // ---- The listing ----

  /** The bytes of a message. */
  function Text(s: string): seq<Byte>
  {
    if s == [] then [] else [s[0] as int % 256] + Text(s[1..])
  }

  function EntryLine(s: Slot): seq<Byte>
  {
    (if IsDirectory(s) then Text("[DIR] ") else Text("[FILE] ")) + ShortName(RawNameOf(s))
    + Text(" cluster ") + Decimal(FirstCluster(s)) + Text(" size ") + Decimal(FileSize(s)) + [NEWLINE]
  }

  // A message is its characters, one byte each.
  lemma {:induction false} TextIs(s: string)
    ensures |Text(s)| == |s| && forall i :: 0 <= i < |s| ==> Text(s)[i] == s[i] as int % 256
  {
    if s != [] {
      TextIs(s[1..]);
    }
  }

  /** How many decimal digits end a text. */
  function EndDigits(line: seq<Byte>): (n: nat)
    ensures n <= |line|
  {
    if line == [] || line[|line| - 1] < 48 || line[|line| - 1] > 57 then 0
    else 1 + EndDigits(line[..|line| - 1])
  }

  /** The number that ends a text. */
  function EndNumber(line: seq<Byte>): nat
  {
    ValueOf(line[|line| - EndDigits(line)..], 10)
  }

  /** A text without the number that ends it and `n` more characters. */
  function WithoutNumber(line: seq<Byte>, n: nat): seq<Byte>
  {
    var m := |line| - EndDigits(line);
    if m < n then [] else line[..m - n]
  }

  lemma {:induction false} EndDigitsAre(front: seq<Byte>, digits: seq<Byte>)
    requires forall i :: 0 <= i < |digits| ==> 48 <= digits[i] <= 57
    requires front != [] && (front[|front| - 1] < 48 || front[|front| - 1] > 57)
    ensures EndDigits(front + digits) == |digits|
    decreases |digits|
  {
    if digits == [] {
      assert front + digits == front;
    } else {
      var n := |digits| - 1;
      assert (front + digits)[..|front| + n] == front + digits[..n];
      EndDigitsAre(front, digits[..n]);
    }
  }

  lemma NumberReadsBack(front: seq<Byte>, n: nat, k: nat)
    requires k <= |front| && front != [] && front[|front| - 1] == 32
    ensures EndNumber(front + Decimal(n)) == n
    ensures WithoutNumber(front + Decimal(n), k) == front[..|front| - k]
  {
    hide Decimal, ValueOf, EndDigits;
    DecimalReadsBack(n);
    DecimalIsDigits(n);
    EndDigitsAre(front, Decimal(n));
    assert (front + Decimal(n))[|front|..] == Decimal(n);
    assert (front + Decimal(n))[..|front| - k] == front[..|front| - k];
  }

  // Kind, name, cluster and size can be read off a line: from its end the size,
  // the cluster and, after the kind, the name.
  lemma LineReadsBack(s: Slot)
    ensures var line := EntryLine(s);
            && |line| > 0 && line[|line| - 1] == 10
            && var sized := line[..|line| - 1];
            && EndNumber(sized) == FileSize(s)
            && var placed := WithoutNumber(sized, |" size "|);
            && EndNumber(placed) == FirstCluster(s)
            && var named := WithoutNumber(placed, |" cluster "|);
            && named == Text(if IsDirectory(s) then "[DIR] " else "[FILE] ") + ShortName(RawNameOf(s))
  {
    hide Text, Decimal, ShortName, FirstCluster, FileSize, IsDirectory, EndNumber, WithoutNumber, RawNameOf;
    var kind := if IsDirectory(s) then Text("[DIR] ") else Text("[FILE] ");
    var named := kind + ShortName(RawNameOf(s));
    TextIs(" cluster ");
    TextIs(" size ");
    var toCluster := named + Text(" cluster ");
    var placed := toCluster + Decimal(FirstCluster(s));
    var toSize := placed + Text(" size ");
    NumberReadsBack(toCluster, FirstCluster(s), 9);
    NumberReadsBack(toSize, FileSize(s), 6);
    assert toSize[..|toSize| - 6] == placed;
    assert toCluster[..|toCluster| - 9] == named;
    assert EntryLine(s) == toSize + Decimal(FileSize(s)) + [NEWLINE];
    assert EntryLine(s)[..|EntryLine(s)| - 1] == toSize + Decimal(FileSize(s));
  }

  function EntryLines(entries: seq<Slot>): seq<Byte>
  {
    if entries == [] then [] else EntryLine(entries[0]) + EntryLines(entries[1..])
  }

  /** Some slot before the first unreadable sector ends the directory. */
  predicate Terminated(slots: seq<Slot>)
  {
    exists i :: 0 <= i < |slots| && AtEnd(slots[i])
  }

  /** What listing the root directory writes to the console. */
  function Listing(d: Disk, v: Volume): seq<Byte>
    requires Mountable(v)
  {
    Text("fat32: root directory\n") + ScanListing(d, WalkLbas(d, v, v.rootCluster, 0))
  }

  function ScanListing(d: Disk, lbas: seq<U32>): seq<Byte>
  {
    ListingOf(d, lbas, DirSlots(d, lbas))
  }

  /** The lines of the visible entries, and a notice when an unreadable sector stops the scan. */
  function ListingOf(d: Disk, lbas: seq<U32>, slots: seq<Slot>): seq<Byte>
  {
    EntryLines(Visible(slots))
    + if Terminated(slots) || AllReadable(d, lbas) then [] else Text("fat32: directory read failed\n")
  }

  // ---- Steps of a directory scan ----

  /** `rest` holds the visible entries after the first `seen`. */
  predicate AfterSeen(all: seq<Slot>, rest: seq<Slot>, seen: nat)
  {
    seen <= |Visible(all)| && Visible(all)[seen..] == Visible(rest)
  }

  lemma SeeSlot(all: seq<Slot>, s: Slot, rest: seq<Slot>, seen: nat)
    requires AfterSeen(all, [s] + rest, seen) && !AtEnd(s)
    ensures Listed(s) ==> seen < |Visible(all)| && Visible(all)[seen] == s && AfterSeen(all, rest, seen + 1)
    ensures !Listed(s) ==> AfterSeen(all, rest, seen)
  {
  }

  lemma NothingLeft(all: seq<Slot>, rest: seq<Slot>, seen: nat)
    requires AfterSeen(all, rest, seen) && (rest == [] || AtEnd(rest[0]))
    ensures |Visible(all)| == seen
  {
  }

  lemma FindStep(s: Slot, rest: seq<Slot>, name: RawName)
    ensures FindFile([s] + rest, name) ==
            if AtEnd(s) then None
            else if PlainFile(s) && RawNameOf(s) == name then Some(s)
            else FindFile(rest, name)
  {
  }

  lemma ListSlot(d: Disk, lbas: seq<U32>, s: Slot, rest: seq<Slot>)
    ensures AtEnd(s) ==> ListingOf(d, lbas, [s] + rest) == []
    ensures !AtEnd(s) ==> ListingOf(d, lbas, [s] + rest) ==
                          (if Listed(s) then EntryLine(s) else []) + ListingOf(d, lbas, rest)
  {
    hide EntryLine, Text, AllReadable;
    var slots := [s] + rest;
    assert slots[1..] == rest && slots[0] == s;
    if AtEnd(s) {
      assert Terminated(slots);
      assert Visible(slots) == [];
    } else {
      assert Terminated(slots) <==> Terminated(rest) by {
        if Terminated(rest) {
          var i :| 0 <= i < |rest| && AtEnd(rest[i]);
          assert slots[i + 1] == rest[i];
        }
      }
      var lines := EntryLines(Visible(rest));
      var notice := if Terminated(rest) || AllReadable(d, lbas) then [] else Text("fat32: directory read failed\n");
      if Listed(s) {
        assert Visible(slots)[1..] == Visible(rest);
        assert EntryLine(s) + lines + notice == EntryLine(s) + (lines + notice);
      } else {
        assert Visible(slots) == Visible(rest);
        assert [] + (lines + notice) == lines + notice;
      }
    }
  }

  lemma ListSector(d: Disk, lba: U32, lbas: seq<U32>, slots: seq<Slot>)
    ensures lba in d ==> ListingOf(d, [lba] + lbas, slots) == ListingOf(d, lbas, slots)
    ensures lba !in d ==> ListingOf(d, [lba] + lbas, []) == Text("fat32: directory read failed\n")
  {
    hide EntryLine, Text, AllReadable;
    ReadableCons(d, lba, lbas);
    assert Visible([]) == [] && EntryLines([]) == [];
  }

  lemma ReadableCons(d: Disk, lba: U32, lbas: seq<U32>)
    ensures AllReadable(d, [lba] + lbas) <==> lba in d && AllReadable(d, lbas)
  {
    var all := [lba] + lbas;
    assert all[0] == lba && forall k :: 0 <= k < |lbas| ==> all[k + 1] == lbas[k];
    if AllReadable(d, all) {
      forall k | 0 <= k < |lbas| ensures lbas[k] in d { assert all[k + 1] in d; }
    }
  }

  lemma FindNothing(name: RawName)
    ensures FindFile([], name) == None
  {
  }

  lemma NothingToList(d: Disk)
    ensures ScanListing(d, []) == []
  {
  }

  lemma SlotIs(s: Sector, i: nat)
    requires i < SLOTS
    ensures s[SLOT_SIZE * i..SLOT_SIZE * i + SLOT_SIZE] == SlotAt(s, i)
  {
  }

  lemma NoSlots(d: Disk)
    ensures DirSlots(d, []) == []
  {
  }

  lemma StartScan(all: seq<Slot>)
    ensures AfterSeen(all, all, 0)
  {
  }

  lemma WalkUnfolds(d: Disk, v: Volume, cluster: U32, steps: nat)
    requires Mountable(v) && steps <= MAX_CLUSTER_STEPS
    ensures steps < MAX_CLUSTER_STEPS && InData(cluster) ==>
              WalkLbas(d, v, cluster, steps) ==
              ClusterLbas(v, cluster, 0) + WalkLbas(d, v, NextCluster(d, v, cluster), steps + 1)
    ensures steps == MAX_CLUSTER_STEPS || !InData(cluster) ==> WalkLbas(d, v, cluster, steps) == []
  {
  }

  lemma ClusterEnds(v: Volume, cluster: U32, rest: seq<U32>)
    requires cluster >= 2
    ensures ClusterLbas(v, cluster, v.sectorsPerCluster) + rest == rest
  {
  }

  // The first sector of a cluster is the head of what is left to scan.
  lemma ScanSector(d: Disk, v: Volume, cluster: U32, offset: nat, rest: seq<U32>)
    requires cluster >= 2 && offset < v.sectorsPerCluster
    ensures var lba := ClusterLba(v, cluster, offset);
            var tail := ClusterLbas(v, cluster, offset + 1) + rest;
            && ClusterLbas(v, cluster, offset) + rest == [lba] + tail
            && DirSlots(d, [lba] + tail) == if lba in d then SlotsFrom(d[lba], 0) + DirSlots(d, tail) else []
  {
    hide ClusterLba, ClusterLbas, SlotsFrom, DirSlots;
    ClusterHead(v, cluster, offset);
    assert [ClusterLba(v, cluster, offset)] + ClusterLbas(v, cluster, offset + 1) + rest
           == [ClusterLba(v, cluster, offset)] + (ClusterLbas(v, cluster, offset + 1) + rest);
    DirStep(d, ClusterLba(v, cluster, offset), ClusterLbas(v, cluster, offset + 1) + rest);
  }

  lemma ClusterHead(v: Volume, cluster: U32, offset: nat)
    requires cluster >= 2 && offset < v.sectorsPerCluster
    ensures ClusterLbas(v, cluster, offset) == [ClusterLba(v, cluster, offset)] + ClusterLbas(v, cluster, offset + 1)
  {
  }

  lemma DirStep(d: Disk, lba: U32, tail: seq<U32>)
    ensures DirSlots(d, [lba] + tail) == if lba in d then SlotsFrom(d[lba], 0) + DirSlots(d, tail) else []
  {
    hide SlotsFrom;
    assert ([lba] + tail)[1..] == tail;
  }

  lemma SectorEnds(s: Sector, tail: seq<Slot>)
    ensures SlotsFrom(s, SLOTS) + tail == tail
  {
  }

  // The first slot of a sector is the head of its slots.
  lemma ScanSlot(s: Sector, i: nat, tail: seq<Slot>)
    requires i < SLOTS
    ensures SlotsFrom(s, i) + tail == [SlotAt(s, i)] + (SlotsFrom(s, i + 1) + tail)
  {
  }
}
