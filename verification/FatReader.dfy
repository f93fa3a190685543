// The FAT32 reader: nested walks over clusters, sectors and directory slots
// through one shared sector buffer, proved against the flat volume.
module FatReader {
  import opened Wrappers
  import opened Bits
  import opened ConsoleText
  import opened FatVolume
  import opened ShortNames

  /** A directory entry as handed to a caller; its name goes to the caller's buffer. */
  datatype Entry = Entry(directory: bool, firstCluster: U32, size: U32)

  function EntryOf(s: Slot): Entry
  {
    Entry(IsDirectory(s), FirstCluster(s), FileSize(s))
  }

  class Reader {
    const disk: Disk
    const sector: array<Byte>
    var volume: Volume
    var mounted: bool

    ghost predicate Valid()
      reads this
    {
      sector.Length == SECTOR_SIZE && (mounted ==> Mountable(volume))
    }

    constructor (disk: Disk)
      ensures Valid() && !mounted && this.disk == disk && fresh(sector)
    {
      this.disk := disk;
      sector := new Byte[SECTOR_SIZE](i => 0);
      volume := Volume(0, 0, 0, 0, 0, 0, 0, 0);
      mounted := false;
    }

    // Fills the shared buffer, or leaves it as it was.
    method BlockRead(lba: U32) returns (ok: bool)
      requires Valid()
      modifies sector
      ensures ok <==> lba in disk
      ensures sector[..] == if ok then disk[lba] else old(sector[..])
    {
      if lba !in disk {
        return false;
      }
      for i := 0 to SECTOR_SIZE
        invariant sector[..i] == disk[lba][..i]
      {
        sector[i] := disk[lba][i];
      }
      return true;
    }

    method LoadVolume(partitionLba: U32) returns (ok: bool)
      requires Valid()
      modifies this`volume, this`mounted, sector
      ensures Valid()
      ensures ok <==> partitionLba in disk && ValidBootSector(disk[partitionLba])
      ensures ok ==> mounted && volume == VolumeOf(disk[partitionLba], partitionLba)
      ensures !ok ==> mounted == old(mounted) && volume == old(volume)
    {
      ok := BlockRead(partitionLba);
      if !ok || !ValidBootSector(sector[..]) {
        return false;
      }
      volume := VolumeOf(sector[..], partitionLba);
      mounted := true;
    }

    method Next(cluster: U32) returns (next: U32)
      requires Valid() && mounted
      modifies sector
      ensures next == NextCluster(disk, volume, cluster)
    {
      if cluster > LAST_FOLLOWED {
        return BAD_CLUSTER;
      }
      var fatOffset := cluster * 4;
      var fatSector := (volume.partitionLba + volume.reservedSectors + fatOffset / volume.bytesPerSector) % LIMIT32;
      var ok := BlockRead(fatSector);
      if !ok {
        return BAD_CLUSTER;
      }
      FatOffset(cluster);
      return Read32(sector[..], fatOffset % volume.bytesPerSector) % 0x1000_0000;
    }

    // Copies the start of the sector buffer into the caller's buffer.
    method CopyOut(buffer: array<Byte>, at: nat, amount: nat)
      requires Valid() && buffer != sector && amount <= SECTOR_SIZE && at + amount <= buffer.Length
      modifies buffer
      ensures buffer[..at + amount] == old(buffer[..at]) + sector[..amount]
      ensures buffer[at + amount..] == old(buffer[at + amount..])
    {
      for index := 0 to amount
        invariant buffer[..at + index] == old(buffer[..at]) + sector[..index]
        invariant buffer[at + index..] == old(buffer[at + index..])
      {
        buffer[at + index] := sector[index];
      }
    }

    // Reads a whole file. It succeeds exactly when the file fits and every
    // sector it needs can be reached and read; then the buffer starts with the
    // flat file and `size` is set. A failure leaves in the buffer the sectors
    // before the first missing one. Beyond them the buffer never changes.
    method ReadFileClusters(first: U32, fileSize: U32, buffer: array<Byte>, capacity: U32, size: nat)
      returns (ok: bool, size': nat)
      requires Valid() && mounted && buffer != sector && capacity <= buffer.Length
      modifies sector, buffer
      ensures ok <==> fileSize <= capacity && FileBytes(disk, volume, first, fileSize).Some?
      ensures size' == if ok then fileSize else size
      ensures ok ==> Filled(disk, WalkLbas(disk, volume, first, 0), fileSize)
                     == FileBytes(disk, volume, first, fileSize).value
      ensures fileSize > capacity ==> buffer[..] == old(buffer[..])
      ensures fileSize <= capacity ==>
                StartsWith(buffer[..], Filled(disk, WalkLbas(disk, volume, first, 0), fileSize), old(buffer[..]))
    {
      hide Filled, FlatBytes, Progress, NextCluster, WalkLbas;
      size' := size;
      if fileSize > capacity {
        return false, size';
      }
      ghost var lbas := WalkLbas(disk, volume, first, 0);
      ProgressStarts(disk, lbas, fileSize);
      var cluster := first;
      var bytesRead := 0;
      var clusterSteps := 0;
      ghost var done: nat := 0;
      while bytesRead < fileSize && clusterSteps < MAX_CLUSTER_STEPS && 2 <= cluster < END_OF_CHAIN
        invariant 0 <= cluster < LIMIT32 && 0 <= clusterSteps <= MAX_CLUSTER_STEPS && 0 <= bytesRead <= fileSize
        invariant done <= |lbas| && Progress(disk, lbas, fileSize, buffer[..bytesRead], done)
        invariant buffer[bytesRead..] == old(buffer[bytesRead..])
        invariant bytesRead < fileSize ==> lbas[done..] == WalkLbas(disk, volume, cluster, clusterSteps)
      {
        var stopped;
        stopped, bytesRead, done := ReadCluster(lbas, done, cluster, clusterSteps, buffer, fileSize, bytesRead);
        if stopped {
          SplitAt(buffer[..], bytesRead, old(buffer[..]));
          return false, size';
        }
        cluster := Next(cluster);
        clusterSteps := clusterSteps + 1;
      }
      SplitAt(buffer[..], bytesRead, old(buffer[..]));
      if bytesRead != fileSize {
        WalkUnfolds(disk, volume, cluster, clusterSteps);
        ProgressStuck(disk, lbas, fileSize, buffer[..bytesRead], done);
        return false, size';
      }
      ProgressEnds(disk, lbas, fileSize, buffer[..bytesRead], done);
      return true, fileSize;
    }

    // One sector of a file: read it and copy what the file still needs of it.
    method ReadSector(ghost lbas: seq<U32>, ghost done: nat, lba: U32, buffer: array<Byte>, fileSize: U32, start: nat)
      returns (ok: bool, bytesRead: nat)
      requires Valid() && buffer != sector && start < fileSize <= buffer.Length
      requires done < |lbas| && lbas[done] == lba && Progress(disk, lbas, fileSize, buffer[..start], done)
      modifies sector, buffer
      ensures start <= bytesRead <= fileSize && buffer[bytesRead..] == old(buffer[bytesRead..])
      ensures !ok ==> FlatBytes(disk, lbas, fileSize) == None && bytesRead == start
                      && Filled(disk, lbas, fileSize) == buffer[..start] == old(buffer[..start])
      ensures ok ==> Progress(disk, lbas, fileSize, buffer[..bytesRead], done + 1)
    {
      hide Progress, FlatBytes, Filled;
      ok := BlockRead(lba);
      if !ok {
        ProgressStuck(disk, lbas, fileSize, buffer[..start], done);
        return false, start;
      }
      ProgressSteps(disk, lbas, fileSize, buffer[..start], done);
      var remaining := fileSize - start;
      var amount := if remaining < SECTOR_SIZE then remaining else SECTOR_SIZE;
      CopyOut(buffer, start, amount);
      bytesRead := start + amount;
    }

    // The inner loop: the sectors of one cluster.
    method ReadCluster(ghost lbas: seq<U32>, ghost done: nat, cluster: U32, ghost steps: nat, buffer: array<Byte>,
                       fileSize: U32, start: nat)
      returns (stopped: bool, bytesRead: nat, ghost done': nat)
      requires Valid() && mounted && buffer != sector && InData(cluster) && steps < MAX_CLUSTER_STEPS
      requires start < fileSize <= buffer.Length && done <= |lbas|
      requires Progress(disk, lbas, fileSize, buffer[..start], done)
      requires lbas[done..] == WalkLbas(disk, volume, cluster, steps)
      modifies sector, buffer
      ensures start <= bytesRead <= fileSize && buffer[bytesRead..] == old(buffer[bytesRead..])
      ensures stopped ==> FlatBytes(disk, lbas, fileSize) == None && Filled(disk, lbas, fileSize) == buffer[..bytesRead]
      ensures !stopped ==> done' <= |lbas| && Progress(disk, lbas, fileSize, buffer[..bytesRead], done')
      ensures !stopped && bytesRead < fileSize ==>
                lbas[done'..] == WalkLbas(disk, volume, NextCluster(disk, volume, cluster), steps + 1)
    {
      hide Progress, WalkLbas, ClusterLbas, NextCluster, FlatBytes, SectorBytes, SectorsNeeded, Filled;
      WalkUnfolds(disk, volume, cluster, steps);
      ghost var rest := WalkLbas(disk, volume, NextCluster(disk, volume, cluster), steps + 1);
      bytesRead, done' := start, done;
      var sectorOffset := 0;
      while sectorOffset < volume.sectorsPerCluster && bytesRead < fileSize
        invariant 0 <= sectorOffset <= volume.sectorsPerCluster && start <= bytesRead <= fileSize && done' <= |lbas|
        invariant Progress(disk, lbas, fileSize, buffer[..bytesRead], done')
        invariant buffer[bytesRead..] == old(buffer[bytesRead..])
        invariant lbas[done'..] == ClusterLbas(volume, cluster, sectorOffset) + rest
      {
        ScanSector(disk, volume, cluster, sectorOffset, rest);
        Uncons(lbas, done', ClusterLba(volume, cluster, sectorOffset),
               ClusterLbas(volume, cluster, sectorOffset + 1) + rest);
        var readable;
        ghost var before := buffer[..];
        ghost var from := bytesRead;
        readable, bytesRead := ReadSector(
          lbas, done', ClusterLba(volume, cluster, sectorOffset), buffer, fileSize, bytesRead);
        TailFrom(buffer[..], before, old(buffer[..]), from, bytesRead);
        if !readable {
          return true, bytesRead, done';
        }
        done' := done' + 1;
        sectorOffset := sectorOffset + 1;
      }
      ClusterEnds(volume, cluster, rest);
      stopped := false;
    }

    // ---- Directory entry by index ----

    // The i-th visible entry of the flat root directory, or nothing exactly
    // when there is no such entry.
    method RootEntry(index: U32, name: array<Byte>) returns (r: Option<Entry>)
      requires Valid() && name.Length == 13 && name != sector
      modifies sector, name
      ensures !mounted ==> r == None
      ensures mounted ==>
                var vis := Visible(RootSlots(disk, volume));
                r == if index < |vis| then Some(EntryOf(vis[index])) else None
      ensures r.Some? ==> NameIn(name[..], Visible(RootSlots(disk, volume))[index])
      ensures r == None ==> name[..] == old(name[..])
    {
      hide AfterSeen, Visible, NextCluster, WalkLbas, NameIn, DirSlots, ClusterLbas;
      if !mounted {
        return None;
      }
      NoSlots(disk);
      ghost var all := RootSlots(disk, volume);
      StartScan(all);
      var visibleIndex := 0;
      var cluster := volume.rootCluster;
      var clusterSteps := 0;
      while clusterSteps < MAX_CLUSTER_STEPS && 2 <= cluster < END_OF_CHAIN
        invariant 0 <= cluster < LIMIT32 && 0 <= clusterSteps <= MAX_CLUSTER_STEPS && 0 <= visibleIndex <= index
        invariant AfterSeen(all, DirSlots(disk, WalkLbas(disk, volume, cluster, clusterSteps)), visibleIndex)
        invariant name[..] == old(name[..])
      {
        WalkUnfolds(disk, volume, cluster, clusterSteps);
        ghost var rest := WalkLbas(disk, volume, NextCluster(disk, volume, cluster), clusterSteps + 1);
        var stopped;
        stopped, r, visibleIndex := EntryInCluster(all, rest, cluster, index, visibleIndex, name);
        if stopped {
          return;
        }
        cluster := Next(cluster);
        clusterSteps := clusterSteps + 1;
      }
      WalkUnfolds(disk, volume, cluster, clusterSteps);
      NothingLeft(all, [], visibleIndex);
      return None;
    }

    // The sectors of one cluster.
    method EntryInCluster(ghost all: seq<Slot>, ghost rest: seq<U32>, cluster: U32, index: nat, start: nat,
                          name: array<Byte>)
      returns (stopped: bool, r: Option<Entry>, visibleIndex: nat)
      requires Valid() && mounted && name.Length == 13 && name != sector && InData(cluster) && start <= index
      requires AfterSeen(all, DirSlots(disk, ClusterLbas(volume, cluster, 0) + rest), start)
      modifies sector, name
      ensures visibleIndex <= index
      ensures stopped ==> r == if index < |Visible(all)| then Some(EntryOf(Visible(all)[index])) else None
      ensures stopped && r.Some? ==> NameIn(name[..], Visible(all)[index])
      ensures !stopped || r == None ==> name[..] == old(name[..])
      ensures !stopped ==> AfterSeen(all, DirSlots(disk, rest), visibleIndex)
    {
      hide AfterSeen, Visible, NameIn, ClusterLbas, DirSlots;
      visibleIndex := start;
      var sectorOffset := 0;
      while sectorOffset < volume.sectorsPerCluster
        invariant 0 <= sectorOffset <= volume.sectorsPerCluster && 0 <= visibleIndex <= index
        invariant AfterSeen(all, DirSlots(disk, ClusterLbas(volume, cluster, sectorOffset) + rest), visibleIndex)
        invariant name[..] == old(name[..])
      {
        ScanSector(disk, volume, cluster, sectorOffset, rest);
        ghost var tail := DirSlots(disk, ClusterLbas(volume, cluster, sectorOffset + 1) + rest);
        var readable := BlockRead(ClusterLba(volume, cluster, sectorOffset));
        if !readable {
          NothingLeft(all, [], visibleIndex);
          return true, None, visibleIndex;
        }
        stopped, r, visibleIndex := EntryInSector(all, tail, index, visibleIndex, name);
        if stopped {
          return;
        }
        sectorOffset := sectorOffset + 1;
      }
      ClusterEnds(volume, cluster, rest);
      return false, None, visibleIndex;
    }

    // The slots of the sector in the buffer.
    method EntryInSector(ghost all: seq<Slot>, ghost tail: seq<Slot>, index: nat, start: nat, name: array<Byte>)
      returns (stopped: bool, r: Option<Entry>, visibleIndex: nat)
      requires Valid() && name.Length == 13 && name != sector && start <= index
      requires AfterSeen(all, SlotsFrom(sector[..], 0) + tail, start)
      modifies name
      ensures visibleIndex <= index
      ensures stopped ==> r == if index < |Visible(all)| then Some(EntryOf(Visible(all)[index])) else None
      ensures stopped && r.Some? ==> NameIn(name[..], Visible(all)[index])
      ensures !stopped || r == None ==> name[..] == old(name[..])
      ensures !stopped ==> AfterSeen(all, tail, visibleIndex)
    {
      hide AfterSeen, SlotAt, SlotsFrom, ShortName, CString;
      visibleIndex, r := start, None;
      for i := 0 to SLOTS
        invariant visibleIndex <= index && r == None && name[..] == old(name[..])
        invariant AfterSeen(all, SlotsFrom(sector[..], i) + tail, visibleIndex)
      {
        var entry: Slot := sector[SLOT_SIZE * i..SLOT_SIZE * i + SLOT_SIZE];
        SlotIs(sector[..], i);
        ScanSlot(sector[..], i, tail);
        if entry[0] == 0 {
          NothingLeft(all, [entry] + (SlotsFrom(sector[..], i + 1) + tail), visibleIndex);
          return true, None, visibleIndex;
        }
        SeeSlot(all, entry, SlotsFrom(sector[..], i + 1) + tail, visibleIndex);
        if entry[0] == DELETED || entry[11] == LONG_NAME || entry[11] == LABEL {
          continue;
        }
        if visibleIndex != index {
          visibleIndex := visibleIndex + 1;
          continue;
        }
        FormatShortName(entry, name);
        return true, Some(EntryOf(entry)), visibleIndex;
      }
      SectorEnds(sector[..], tail);
      stopped := false;
    }

    // ---- Directory entry by name ----

    method FindRootFile(name: RawName) returns (r: Option<Entry>)
      requires Valid() && mounted
      modifies sector
      ensures r == match FindFile(RootSlots(disk, volume), name)
                   case None => None
                   case Some(s) => Some(EntryOf(s))
    {
      hide FindFile, NextCluster, WalkLbas;
      ghost var found := FindFile(RootSlots(disk, volume), name);
      FindNothing(name);
      var cluster := volume.rootCluster;
      var clusterSteps := 0;
      while clusterSteps < MAX_CLUSTER_STEPS && 2 <= cluster < END_OF_CHAIN
        invariant 0 <= cluster < LIMIT32 && 0 <= clusterSteps <= MAX_CLUSTER_STEPS
        invariant found == FindFile(DirSlots(disk, WalkLbas(disk, volume, cluster, clusterSteps)), name)
      {
        WalkUnfolds(disk, volume, cluster, clusterSteps);
        var stopped;
        stopped, r := FileInCluster(
          WalkLbas(disk, volume, NextCluster(disk, volume, cluster), clusterSteps + 1), cluster, name);
        if stopped {
          return;
        }
        cluster := Next(cluster);
        clusterSteps := clusterSteps + 1;
      }
      WalkUnfolds(disk, volume, cluster, clusterSteps);
      return None;
    }

    method FileInCluster(ghost rest: seq<U32>, cluster: U32, name: RawName) returns (stopped: bool, r: Option<Entry>)
      requires Valid() && mounted && InData(cluster)
      modifies sector
      ensures var found := FindFile(DirSlots(disk, ClusterLbas(volume, cluster, 0) + rest), name);
              if stopped then r == (match found case None => None case Some(s) => Some(EntryOf(s)))
              else found == FindFile(DirSlots(disk, rest), name)
    {
      hide FindFile, ClusterLbas, DirSlots;
      ghost var found := FindFile(DirSlots(disk, ClusterLbas(volume, cluster, 0) + rest), name);
      FindNothing(name);
      var sectorOffset := 0;
      while sectorOffset < volume.sectorsPerCluster
        invariant 0 <= sectorOffset <= volume.sectorsPerCluster
        invariant found == FindFile(DirSlots(disk, ClusterLbas(volume, cluster, sectorOffset) + rest), name)
      {
        ScanSector(disk, volume, cluster, sectorOffset, rest);
        ghost var tail := DirSlots(disk, ClusterLbas(volume, cluster, sectorOffset + 1) + rest);
        var readable := BlockRead(ClusterLba(volume, cluster, sectorOffset));
        if !readable {
          return true, None;
        }
        stopped, r := FileInSector(name, tail);
        if stopped {
          return;
        }
        sectorOffset := sectorOffset + 1;
      }
      ClusterEnds(volume, cluster, rest);
      return false, None;
    }

    method FileInSector(name: RawName, ghost tail: seq<Slot>) returns (stopped: bool, r: Option<Entry>)
      requires Valid()
      ensures var found := FindFile(SlotsFrom(sector[..], 0) + tail, name);
              if stopped then r == (match found case None => None case Some(s) => Some(EntryOf(s)))
              else found == FindFile(tail, name)
    {
      hide FindFile, SlotAt, SlotsFrom;
      r := None;
      for i := 0 to SLOTS
        invariant FindFile(SlotsFrom(sector[..], 0) + tail, name) == FindFile(SlotsFrom(sector[..], i) + tail, name)
      {
        var entry: Slot := sector[SLOT_SIZE * i..SLOT_SIZE * i + SLOT_SIZE];
        SlotIs(sector[..], i);
        ScanSlot(sector[..], i, tail);
        FindStep(entry, SlotsFrom(sector[..], i + 1) + tail, name);
        if entry[0] == 0 {
          return true, None;
        }
        if entry[0] == DELETED || entry[11] == LONG_NAME || entry[11] / 0x08 % 4 != 0 {
          continue;
        }
        var matches := MatchesName(entry, name);
        if matches {
          return true, Some(EntryOf(entry));
        }
      }
      SectorEnds(sector[..], tail);
      stopped := false;
    }

    // Counts the matching bytes of a name.
    method MatchesName(entry: Slot, name: RawName) returns (matches: bool)
      ensures matches <==> RawNameOf(entry) == name
    {
      var matchingBytes := 0;
      for index := 0 to 11
        invariant matchingBytes <= index
        invariant matchingBytes == index <==> entry[..index] == name[..index]
      {
        if entry[index] == name[index] {
          matchingBytes := matchingBytes + 1;
        }
      }
      assert name[..11] == name;
      matches := matchingBytes == 11;
    }

    // ---- Whole files ----

    // On failure `size` stays as it was and the buffer holds what was
    // delivered of the file before the first missing sector, if anything.
    method ReadRootEntry(index: U32, buffer: array<Byte>, capacity: U32, size: nat) returns (ok: bool, size': nat)
      requires Valid() && buffer != sector && capacity <= buffer.Length
      modifies sector, buffer
      ensures ok <==> mounted && Fits(ReadByIndex(disk, volume, index), capacity)
      ensures size' == if ok then |ReadByIndex(disk, volume, index).value| else size
      ensures ok ==> buffer[..size'] == ReadByIndex(disk, volume, index).value
      ensures StartsWith(buffer[..],
                         if mounted then Delivered(disk, volume, EntryByIndex(disk, volume, index), capacity) else [],
                         old(buffer[..]))
    {
      hide Filled, FlatBytes, RootSlots, Visible, WalkLbas;
      var name := new Byte[13](i => 0);
      var entry := RootEntry(index, name);
      if entry == None || entry.value.directory {
        return false, size;
      }
      FlatLength(disk, WalkLbas(disk, volume, entry.value.firstCluster, 0), entry.value.size);
      ok, size' := ReadFileClusters(entry.value.firstCluster, entry.value.size, buffer, capacity, size);
    }

    method ReadRoot83(name: RawName, buffer: array<Byte>, capacity: U32, size: nat) returns (ok: bool, size': nat)
      requires Valid() && buffer != sector && capacity <= buffer.Length
      modifies sector, buffer
      ensures ok <==> mounted && Fits(ReadByName(disk, volume, name), capacity)
      ensures size' == if ok then |ReadByName(disk, volume, name).value| else size
      ensures ok ==> buffer[..size'] == ReadByName(disk, volume, name).value
      ensures StartsWith(buffer[..],
                         if mounted then Delivered(disk, volume, FindFile(RootSlots(disk, volume), name), capacity)
                         else [],
                         old(buffer[..]))
    {
      hide Filled, FlatBytes, RootSlots, WalkLbas;
      if !mounted {
        return false, size;
      }
      var entry := FindRootFile(name);
      if entry == None {
        return false, size;
      }
      FlatLength(disk, WalkLbas(disk, volume, entry.value.firstCluster, 0), entry.value.size);
      if entry.value.size > capacity {
        return false, size;
      }
      ok, size' := ReadFileClusters(entry.value.firstCluster, entry.value.size, buffer, capacity, size);
    }

    // ---- The listing ----

    // Returns what the listing writes to the console.
    method ListRoot() returns (out: seq<Byte>)
      requires Valid()
      modifies sector
      ensures !mounted ==> out == []
      ensures mounted ==> out == Listing(disk, volume)
    {
      hide ScanListing, NextCluster, WalkLbas, ClusterLbas, Text;
      if !mounted {
        return [];
      }
      NothingToList(disk);
      out := Text("fat32: root directory\n");
      var cluster := volume.rootCluster;
      var clusterSteps := 0;
      while clusterSteps < MAX_CLUSTER_STEPS && 2 <= cluster < END_OF_CHAIN
        invariant 0 <= cluster < LIMIT32 && 0 <= clusterSteps <= MAX_CLUSTER_STEPS
        invariant Listing(disk, volume) == out + ScanListing(disk, WalkLbas(disk, volume, cluster, clusterSteps))
      {
        WalkUnfolds(disk, volume, cluster, clusterSteps);
        var stopped, lines := ListCluster(
          WalkLbas(disk, volume, NextCluster(disk, volume, cluster), clusterSteps + 1), cluster);
        out := out + lines;
        if stopped {
          return;
        }
        cluster := Next(cluster);
        clusterSteps := clusterSteps + 1;
      }
      WalkUnfolds(disk, volume, cluster, clusterSteps);
    }

    method ListCluster(ghost rest: seq<U32>, cluster: U32) returns (stopped: bool, out: seq<Byte>)
      requires Valid() && mounted && InData(cluster)
      modifies sector
      ensures ScanListing(disk, ClusterLbas(volume, cluster, 0) + rest) ==
              if stopped then out else out + ScanListing(disk, rest)
    {
      hide ListingOf, ClusterLbas, DirSlots, Text;
      out := [];
      var sectorOffset := 0;
      while sectorOffset < volume.sectorsPerCluster
        invariant 0 <= sectorOffset <= volume.sectorsPerCluster
        invariant ScanListing(disk, ClusterLbas(volume, cluster, 0) + rest) ==
                  out + ScanListing(disk, ClusterLbas(volume, cluster, sectorOffset) + rest)
      {
        ScanSector(disk, volume, cluster, sectorOffset, rest);
        ghost var left := ClusterLbas(volume, cluster, sectorOffset + 1) + rest;
        ListSector(disk, ClusterLba(volume, cluster, sectorOffset), left,
                   DirSlots(disk, ClusterLbas(volume, cluster, sectorOffset) + rest));
        var readable := BlockRead(ClusterLba(volume, cluster, sectorOffset));
        if !readable {
          out := out + Text("fat32: directory read failed\n");
          return true, out;
        }
        var lines;
        stopped, lines := ListSectorSlots(left, DirSlots(disk, left));
        out := out + lines;
        if stopped {
          return;
        }
        sectorOffset := sectorOffset + 1;
      }
      ClusterEnds(volume, cluster, rest);
      stopped := false;
    }

    method ListSectorSlots(ghost left: seq<U32>, ghost tail: seq<Slot>) returns (stopped: bool, out: seq<Byte>)
      requires Valid()
      ensures ListingOf(disk, left, SlotsFrom(sector[..], 0) + tail) ==
              if stopped then out else out + ListingOf(disk, left, tail)
    {
      hide ListingOf, SlotAt, SlotsFrom, EntryLine;
      out := [];
      for i := 0 to SLOTS
        invariant ListingOf(disk, left, SlotsFrom(sector[..], 0) + tail) ==
                  out + ListingOf(disk, left, SlotsFrom(sector[..], i) + tail)
      {
        var entry: Slot := sector[SLOT_SIZE * i..SLOT_SIZE * i + SLOT_SIZE];
        SlotIs(sector[..], i);
        ScanSlot(sector[..], i, tail);
        ListSlot(disk, left, entry, SlotsFrom(sector[..], i + 1) + tail);
        if entry[0] == 0 {
          return true, out;
        }
        if entry[0] == DELETED || entry[11] == LONG_NAME || entry[11] == LABEL {
          continue;
        }
        var line := ListEntry(entry);
        out := out + line;
      }
      SectorEnds(sector[..], tail);
      stopped := false;
    }

    method ListEntry(entry: Slot) returns (line: seq<Byte>)
      ensures line == EntryLine(entry)
    {
      var name := PrintShortName(entry);
      line := if IsDirectory(entry) then Text("[DIR] ") else Text("[FILE] ");
      line := line + name + Text(" cluster ") + Decimal(FirstCluster(entry)) + Text(" size ");
      line := line + Decimal(FileSize(entry)) + [NEWLINE];
    }
  }

  /** `buffer` starts with `start` and is otherwise as it was. */
  predicate StartsWith(buffer: seq<Byte>, start: seq<Byte>, was: seq<Byte>)
  {
    |buffer| == |was| && |start| <= |was| && buffer[..|start|] == start && buffer[|start|..] == was[|start|..]
  }

  lemma SplitAt(buffer: seq<Byte>, k: nat, was: seq<Byte>)
    requires |buffer| == |was| && k <= |was| && buffer[k..] == was[k..]
    ensures StartsWith(buffer, buffer[..k], was)
  {
  }

  // What is unchanged from `j` on is unchanged from any later position on.
  lemma TailFrom(now: seq<Byte>, before: seq<Byte>, was: seq<Byte>, i: nat, j: nat)
    requires |now| == |before| == |was| && i <= j <= |was| && now[j..] == before[j..] && before[i..] == was[i..]
    ensures now[j..] == was[j..]
  {
    assert was[j..] == was[i..][j - i..];
    assert before[j..] == before[i..][j - i..];
  }

  /** The file exists and is no longer than the buffer. */
  predicate Fits(file: Option<seq<Byte>>, capacity: nat)
  {
    file.Some? && |file.value| <= capacity
  }

  /** The buffer holds the rendered name and its terminator. */
  predicate NameIn(name: seq<Byte>, s: Slot)
  {
    var text := ShortName(RawNameOf(s));
    |text| < |name| && name[..|text|] == text && name[|text|] == 0
  }
}
