// The physical page allocator: usable memory-map entries become page-aligned
// regions, and pages are handed out zeroed from a region cursor.
module PageAllocator {
  import opened Wrappers
  import opened Bits
  import opened Frames

  const MAX_MEMORY_REGIONS := 32
  const FALLBACK_END := 128 * 1024 * 1024
  // The kernel image is linked from 1 MiB upwards.
  const KERNEL_BASE := 0x10_0000

  datatype Region = Region(start: nat, end: nat)
  datatype MapEntry = MapEntry(address: Word, length: Word, kind: nat)

  // ---- Building the region table ----

  function AlignDown(address: Word): Word
  {
    And(address, WORD_LIMIT - PAGE_SIZE)
  }

  function AlignUp(address: Word): Word
  {
    AlignDown(WordAdd(address, PAGE_SIZE - 1))
  }

  lemma AlignDownIs(a: Word)
    ensures AlignDown(a) == a - a % PAGE_SIZE
  {
    WordMask(a);
  }

  // Rounding up wraps only in the last page of the address space.
  lemma AlignBounds(a: Word)
    ensures AlignDown(a) % PAGE_SIZE == 0 && AlignDown(a) <= a < AlignDown(a) + PAGE_SIZE
    ensures a <= WORD_LIMIT - PAGE_SIZE ==> AlignUp(a) % PAGE_SIZE == 0 && AlignUp(a) - PAGE_SIZE < a <= AlignUp(a)
    ensures a > WORD_LIMIT - PAGE_SIZE ==> AlignUp(a) == 0
  {
    hide AlignDown;
    AlignDownIs(a);
    RoundDown(a);
    AlignUpIs(a);
    if a <= WORD_LIMIT - PAGE_SIZE {
      RoundDown(a + PAGE_SIZE - 1);
    }
  }

  lemma RoundDown(a: nat)
    ensures (a - a % PAGE_SIZE) % PAGE_SIZE == 0 && a - a % PAGE_SIZE <= a < a - a % PAGE_SIZE + PAGE_SIZE
  {
    QuotientIs(a - a % PAGE_SIZE, PAGE_SIZE, a / PAGE_SIZE, 0);
  }

  lemma AlignUpIs(a: Word)
    ensures a <= WORD_LIMIT - PAGE_SIZE ==>
              AlignUp(a) == a + PAGE_SIZE - 1 - (a + PAGE_SIZE - 1) % PAGE_SIZE
    ensures a > WORD_LIMIT - PAGE_SIZE ==> AlignUp(a) == 0
  {
    hide AlignDown;
    var b := WordAdd(a, PAGE_SIZE - 1);
    AlignDownIs(b);
    if a <= WORD_LIMIT - PAGE_SIZE {
      QuotientIs(a + PAGE_SIZE - 1, WORD_LIMIT, 0, a + PAGE_SIZE - 1);
    } else {
      QuotientIs(a + PAGE_SIZE - 1, WORD_LIMIT, 1, a + PAGE_SIZE - 1 - WORD_LIMIT);
      QuotientIs(b, PAGE_SIZE, 0, b);
    }
  }

  function Max(a: nat, b: nat): nat { if a <= b then b else a }

  /** The region table after `add_region(start, end)`. */
  function AddedRegion(rs: seq<Region>, start: Word, end: Word): seq<Region>
  {
    var cut := Min(end, IDENTITY_MAPPED_LIMIT);
    if start >= IDENTITY_MAPPED_LIMIT || |rs| == MAX_MEMORY_REGIONS || cut <= start then rs
    else
      var r := Region(AlignUp(start), AlignDown(cut));
      if r.end <= r.start then rs else rs + [r]
  }

  /** The region table after one memory-map entry. */
  function AddedEntry(rs: seq<Region>, e: MapEntry, kernelEnd: Word): seq<Region>
  {
    var end := WordAdd(e.address, e.length);
    if e.kind == 1 && e.length != 0 && end > e.address
    then AddedRegion(rs, Max(e.address, kernelEnd), end)
    else rs
  }

  function RecordedRegions(entries: seq<MapEntry>, kernelEnd: Word): seq<Region>
  {
    if entries == [] then []
    else AddedEntry(RecordedRegions(entries[..|entries| - 1], kernelEnd), entries[|entries| - 1], kernelEnd)
  }

  /** The region table that initialisation leaves behind. */
  function InitialRegions(entries: seq<MapEntry>, kernelEnd: Word): seq<Region>
  {
    var rs := RecordedRegions(entries, kernelEnd);
    if rs == [] then AddedRegion([], kernelEnd, FALLBACK_END) else rs
  }

  predicate WellFormed(r: Region, kernelEnd: nat)
  {
    r.start % PAGE_SIZE == 0 && r.end % PAGE_SIZE == 0 && kernelEnd <= r.start < r.end <= IDENTITY_MAPPED_LIMIT
  }

  predicate AllWellFormed(rs: seq<Region>, kernelEnd: nat)
  {
    |rs| <= MAX_MEMORY_REGIONS && forall i :: 0 <= i < |rs| ==> WellFormed(rs[i], kernelEnd)
  }

  // ---- The frames of a region table ----

  function FrameRange(low: nat, high: nat): (fs: seq<nat>)
    ensures forall f :: f in fs <==> low <= f < high
    ensures forall i :: 0 <= i < |fs| ==> fs[i] == low + i
  {
    if low >= high then [] else
    var fs := seq(high - low, i requires 0 <= i => low + i);
    assert forall f :: low <= f < high ==> f in fs by {
      forall f | low <= f < high ensures f in fs { assert fs[f - low] == f; }
    }
    fs
  }

  function RegionFrames(r: Region): seq<nat>
  {
    FrameRange(r.start / PAGE_SIZE, r.end / PAGE_SIZE)
  }

  /** Every frame of the table, region after region in table order. */
  function AllFrames(rs: seq<Region>): seq<nat>
  {
    if rs == [] then [] else RegionFrames(rs[0]) + AllFrames(rs[1..])
  }

  /** The frames still to be handed out when `next` is the cursor in region `current`. */
  function FramesFrom(rs: seq<Region>, current: nat, next: nat): seq<nat>
  {
    if current >= |rs| then []
    else FrameRange(Max(next, rs[current].start) / PAGE_SIZE, rs[current].end / PAGE_SIZE)
         + AllFrames(rs[current + 1..])
  }

  predicate Distinct(s: seq<nat>)
  {
    forall i, j :: 0 <= i < j < |s| ==> s[i] != s[j]
  }

  predicate PageWithin(f: nat, start: nat, end: nat)
  {
    start <= f * PAGE_SIZE && (f + 1) * PAGE_SIZE <= end
  }

  predicate Covers(e: MapEntry, f: nat)
  {
    e.kind == 1 && e.address + e.length < WORD_LIMIT && PageWithin(f, e.address, e.address + e.length)
  }

  /** A whole page above the kernel, below 1 GiB and inside one usable entry. */
  ghost predicate Usable(entries: seq<MapEntry>, kernelEnd: nat, f: nat)
  {
    f < FRAME_COUNT && kernelEnd <= f * PAGE_SIZE && exists i :: 0 <= i < |entries| && Covers(entries[i], f)
  }

  predicate Overlap(a: Region, b: Region)
  {
    a.start < b.end && b.start < a.end
  }

  predicate RegionsDisjoint(rs: seq<Region>)
  {
    forall i, j :: 0 <= i < j < |rs| ==> !Overlap(rs[i], rs[j])
  }

  /** The usable entries of a memory map do not overlap. */
  predicate EntriesDisjoint(entries: seq<MapEntry>)
  {
    forall i, j :: 0 <= i < j < |entries| && entries[i].kind == 1 && entries[j].kind == 1 ==>
      entries[i].address + entries[i].length <= entries[j].address ||
      entries[j].address + entries[j].length <= entries[i].address
  }

  lemma {:induction false} AllFramesSnoc(rs: seq<Region>, r: Region)
    ensures AllFrames(rs + [r]) == AllFrames(rs) + RegionFrames(r)
  {
    if rs == [] {
      assert [r][1..] == [];
    } else {
      assert (rs + [r])[1..] == rs[1..] + [r];
      AllFramesSnoc(rs[1..], r);
    }
  }

  lemma {:induction false} InAllFrames(rs: seq<Region>, f: nat)
    ensures f in AllFrames(rs) <==> exists k :: 0 <= k < |rs| && f in RegionFrames(rs[k])
  {
    if rs != [] {
      InAllFrames(rs[1..], f);
      if f in AllFrames(rs[1..]) {
        var k :| 0 <= k < |rs[1..]| && f in RegionFrames(rs[1..][k]);
        assert f in RegionFrames(rs[k + 1]);
      }
      if k :| 0 <= k < |rs| && f in RegionFrames(rs[k]) {
        assert k > 0 ==> rs[1..][k - 1] == rs[k];
      }
    }
  }

  // One call of `add_region` adds exactly the whole pages of the range below
  // 1 GiB, provided that the table has room.
  lemma AddedRegionFrames(rs: seq<Region>, start: Word, end: Word, kernelEnd: nat)
    requires AllWellFormed(rs, kernelEnd) && kernelEnd <= start
    ensures AllWellFormed(AddedRegion(rs, start, end), kernelEnd)
    ensures forall f: nat :: f in AllFrames(AddedRegion(rs, start, end)) ==>
                          f in AllFrames(rs) || (f < FRAME_COUNT && PageWithin(f, start, end))
    ensures |rs| < MAX_MEMORY_REGIONS ==>
              forall f: nat :: f in AllFrames(rs) || (f < FRAME_COUNT && PageWithin(f, start, end)) ==>
                f in AllFrames(AddedRegion(rs, start, end))
  {
    var cut := Min(end, IDENTITY_MAPPED_LIMIT);
    if start < IDENTITY_MAPPED_LIMIT {
      AlignBounds(start);
      AlignBounds(cut);
      var r := Region(AlignUp(start), AlignDown(cut));
      forall f: nat
        ensures f in RegionFrames(r) <==> f < FRAME_COUNT && PageWithin(f, start, end)
      {
        assert r.start == r.start / PAGE_SIZE * PAGE_SIZE && r.end == r.end / PAGE_SIZE * PAGE_SIZE;
      }
      AllFramesSnoc(rs, r);
    }
  }

  /** Entry `i` covers page `f`, and the table still had room when its turn came. */
  predicate RecordedBy(entries: seq<MapEntry>, kernelEnd: Word, f: nat, i: nat)
  {
    i < |entries| && Covers(entries[i], f) && |RecordedRegions(entries[..i], kernelEnd)| < 32
  }

  ghost predicate Recorded(entries: seq<MapEntry>, kernelEnd: Word, f: nat)
  {
    f < 0x4_0000 && kernelEnd <= f * 4096 && exists i :: RecordedBy(entries, kernelEnd, f, i)
  }

  lemma RecordedSnoc(entries: seq<MapEntry>, kernelEnd: Word, f: nat)
    requires entries != []
    ensures var n := |entries| - 1;
            Recorded(entries, kernelEnd, f) <==>
            || Recorded(entries[..n], kernelEnd, f)
            || (f < FRAME_COUNT && kernelEnd <= f * PAGE_SIZE && RecordedBy(entries, kernelEnd, f, n))
  {
    hide Covers, RecordedRegions;
    RecordedPrefix(entries, kernelEnd, f);
  }

  lemma RecordedPrefix(entries: seq<MapEntry>, kernelEnd: Word, f: nat)
    requires entries != []
    ensures var n := |entries| - 1;
            forall i :: 0 <= i < n ==>
              (RecordedBy(entries, kernelEnd, f, i) <==> RecordedBy(entries[..n], kernelEnd, f, i))
  {
    hide Covers, RecordedRegions;
    var n := |entries| - 1;
    forall i | 0 <= i < n
      ensures RecordedBy(entries, kernelEnd, f, i) <==> RecordedBy(entries[..n], kernelEnd, f, i) {
      assert entries[..n][..i] == entries[..i];
    }
  }

  lemma EntryPages(e: MapEntry, kernelEnd: Word, f: nat)
    ensures kernelEnd <= f * PAGE_SIZE && Covers(e, f) <==>
            e.kind == 1 && e.length != 0 && WordAdd(e.address, e.length) > e.address
            && PageWithin(f, Max(e.address, kernelEnd), WordAdd(e.address, e.length))
  {
  }

  // The frames of the table are exactly the pages above the kernel, below 1 GiB
  // and inside one usable entry that found room in the table.
  lemma {:induction false} RecordedFramesExact(entries: seq<MapEntry>, kernelEnd: Word)
    ensures AllWellFormed(RecordedRegions(entries, kernelEnd), kernelEnd)
    ensures forall f: nat :: f in AllFrames(RecordedRegions(entries, kernelEnd)) <==> Recorded(entries, kernelEnd, f)
  {
    if entries != [] {
      hide AlignUp, AlignDown, PageWithin, AllFrames, Recorded, Covers, WellFormed;
      var n := |entries| - 1;
      var e := entries[n];
      var rs := RecordedRegions(entries[..n], kernelEnd);
      RecordedFramesExact(entries[..n], kernelEnd);
      var start, end := Max(e.address, kernelEnd), WordAdd(e.address, e.length);
      AddedRegionFrames(rs, start, end, kernelEnd);
      forall f: nat
        ensures f in AllFrames(RecordedRegions(entries, kernelEnd)) <==> Recorded(entries, kernelEnd, f)
      {
        RecordedSnoc(entries, kernelEnd, f);
        EntryPages(e, kernelEnd, f);
      }
    }
  }

  lemma {:induction false} RecordedGrows(entries: seq<MapEntry>, kernelEnd: Word, i: nat)
    requires i <= |entries|
    ensures |RecordedRegions(entries[..i], kernelEnd)| <= |RecordedRegions(entries, kernelEnd)|
  {
    if i == |entries| {
      assert entries[..i] == entries;
    } else {
      var n := |entries| - 1;
      RecordedGrows(entries[..n], kernelEnd, i);
      assert entries[..n][..i] == entries[..i];
    }
  }

  // The frames of the table are exactly the usable pages; only a table that
  // filled up may miss some.
  lemma RecordedFramesUsable(entries: seq<MapEntry>, kernelEnd: Word)
    ensures AllWellFormed(RecordedRegions(entries, kernelEnd), kernelEnd)
    ensures forall f: nat :: f in AllFrames(RecordedRegions(entries, kernelEnd)) ==> Usable(entries, kernelEnd, f)
    ensures |RecordedRegions(entries, kernelEnd)| < MAX_MEMORY_REGIONS ==>
              forall f: nat :: Usable(entries, kernelEnd, f) ==> f in AllFrames(RecordedRegions(entries, kernelEnd))
  {
    hide RecordedRegions, AllFrames, Covers;
    RecordedFramesExact(entries, kernelEnd);
    forall f: nat | Usable(entries, kernelEnd, f) && |RecordedRegions(entries, kernelEnd)| < MAX_MEMORY_REGIONS
      ensures Recorded(entries, kernelEnd, f) {
      var i :| 0 <= i < |entries| && Covers(entries[i], f);
      RecordedGrows(entries, kernelEnd, i);
      assert RecordedBy(entries, kernelEnd, f, i);
    }
  }

  lemma SharedFrame(r: Region, rs: seq<Region>, kernelEnd: nat)
    requires AllWellFormed(rs, kernelEnd) && WellFormed(r, kernelEnd)
    ensures (exists f :: f in RegionFrames(r) && f in AllFrames(rs)) <==>
            (exists k :: 0 <= k < |rs| && Overlap(r, rs[k]))
  {
    if f :| f in RegionFrames(r) && f in AllFrames(rs) {
      InAllFrames(rs, f);
      var k :| 0 <= k < |rs| && f in RegionFrames(rs[k]);
      assert Overlap(r, rs[k]);
    }
    if k :| 0 <= k < |rs| && Overlap(r, rs[k]) {
      var f := Max(r.start, rs[k].start) / PAGE_SIZE;
      assert f in RegionFrames(r) && f in RegionFrames(rs[k]);
      InAllFrames(rs, f);
    }
  }

  // Pages are handed out twice exactly when two regions overlap.
  lemma {:induction false} DistinctIffDisjoint(rs: seq<Region>, kernelEnd: nat)
    requires AllWellFormed(rs, kernelEnd)
    ensures Distinct(AllFrames(rs)) <==> RegionsDisjoint(rs)
  {
    if rs != [] {
      var tail := rs[1..];
      DistinctIffDisjoint(tail, kernelEnd);
      SharedFrame(rs[0], tail, kernelEnd);
      DistinctConcat(RegionFrames(rs[0]), AllFrames(tail));
      assert forall k :: 0 <= k < |tail| ==> tail[k] == rs[k + 1];
      assert forall j :: 1 <= j < |rs| ==> rs[j] == tail[j - 1];
      assert RegionsDisjoint(rs) ==> RegionsDisjoint(tail) && !exists k :: 0 <= k < |tail| && Overlap(rs[0], tail[k]);
    }
  }

  lemma DistinctConcat(a: seq<nat>, b: seq<nat>)
    ensures Distinct(a + b) <==> Distinct(a) && Distinct(b) && !exists f :: f in a && f in b
  {
    var s := a + b;
    if Distinct(s) {
      forall i, j | 0 <= i < j < |a| ensures a[i] != a[j] { assert s[i] != s[j]; }
      forall i, j | 0 <= i < j < |b| ensures b[i] != b[j] { assert s[|a| + i] != s[|a| + j]; }
      forall i, j | 0 <= i < |a| && 0 <= j < |b| ensures a[i] != b[j] { assert s[i] != s[|a| + j]; }
    } else {
      var i, j :| 0 <= i < j < |s| && s[i] == s[j];
      if i < |a| <= j {
        assert s[i] in a && s[i] in b;
      }
    }
  }

  predicate RealPage(kernelEnd: nat, f: nat)
  {
    f < FRAME_COUNT && kernelEnd <= f * PAGE_SIZE
  }

  // While there is room, an entry appends exactly the pages it covers, once each.
  lemma AddedEntryFrames(rs: seq<Region>, e: MapEntry, kernelEnd: Word) returns (p: seq<nat>)
    requires |rs| < MAX_MEMORY_REGIONS
    ensures AllFrames(AddedEntry(rs, e, kernelEnd)) == AllFrames(rs) + p && Distinct(p)
    ensures forall f: nat :: f in p <==> RealPage(kernelEnd, f) && Covers(e, f)
  {
    hide AllFrames, AlignUp, AlignDown, Covers, PageWithin, FrameRange;
    var start, end := Max(e.address, kernelEnd), WordAdd(e.address, e.length);
    forall f: nat
      ensures kernelEnd <= f * PAGE_SIZE && Covers(e, f) <==>
              e.kind == 1 && e.length != 0 && end > e.address && PageWithin(f, start, end) {
      EntryPages(e, kernelEnd, f);
    }
    p := [];
    if e.kind == 1 && e.length != 0 && end > e.address {
      p := AddedPages(rs, start, end);
    } else {
      assert AllFrames(rs) + [] == AllFrames(rs);
    }
  }

  lemma AddedPages(rs: seq<Region>, start: Word, end: Word) returns (p: seq<nat>)
    requires |rs| < MAX_MEMORY_REGIONS
    ensures AllFrames(AddedRegion(rs, start, end)) == AllFrames(rs) + p && Distinct(p)
    ensures forall f: nat :: f in p <==> f < FRAME_COUNT && PageWithin(f, start, end)
  {
    hide AllFrames, AlignUp, AlignDown;
    var cut := Min(end, IDENTITY_MAPPED_LIMIT);
    p := [];
    if start < IDENTITY_MAPPED_LIMIT {
      var r := Region(AlignUp(start), AlignDown(cut));
      p := RegionFrames(r);
      AllFramesSnoc(rs, r);
      RegionPages(start, end);
      if cut <= start || r.end <= r.start {
        EmptyRegion(r, start, end);
      }
    }
    assert AllFrames(rs) + [] == AllFrames(rs);
  }

  lemma RegionPages(start: Word, end: Word)
    requires start < IDENTITY_MAPPED_LIMIT
    ensures var r := Region(AlignUp(start), AlignDown(Min(end, IDENTITY_MAPPED_LIMIT)));
            forall f: nat :: f in RegionFrames(r) <==> f < FRAME_COUNT && PageWithin(f, start, end)
  {
    hide AlignUp, AlignDown, FrameRange;
    AlignBounds(start);
    AlignBounds(Min(end, IDENTITY_MAPPED_LIMIT));
    var r := Region(AlignUp(start), AlignDown(Min(end, IDENTITY_MAPPED_LIMIT)));
    forall f: nat
      ensures f in RegionFrames(r) <==> f < FRAME_COUNT && PageWithin(f, start, end)
    {
      assert r.start == r.start / PAGE_SIZE * PAGE_SIZE && r.end == r.end / PAGE_SIZE * PAGE_SIZE;
    }
  }

  lemma EmptyRegion(r: Region, start: Word, end: Word)
    requires r == Region(AlignUp(start), AlignDown(Min(end, IDENTITY_MAPPED_LIMIT))) && start < IDENTITY_MAPPED_LIMIT
    requires Min(end, IDENTITY_MAPPED_LIMIT) <= start || r.end <= r.start
    ensures RegionFrames(r) == []
  {
    hide AlignUp, AlignDown;
    AlignBounds(start);
    AlignBounds(Min(end, IDENTITY_MAPPED_LIMIT));
  }

  /** No page of the map is recorded for two different entries. */
  ghost predicate RecordedOnce(entries: seq<MapEntry>, kernelEnd: Word)
  {
    forall f: nat, i: nat, j: nat ::
      i < j && RecordedBy(entries, kernelEnd, f, i) && RecordedBy(entries, kernelEnd, f, j) ==>
        !RealPage(kernelEnd, f)
  }

  lemma RecordedOnceSnoc(entries: seq<MapEntry>, kernelEnd: Word)
    requires entries != []
    ensures var n := |entries| - 1;
            RecordedOnce(entries, kernelEnd) <==>
            && RecordedOnce(entries[..n], kernelEnd)
            && forall f: nat :: Recorded(entries[..n], kernelEnd, f) ==> !RecordedBy(entries, kernelEnd, f, n)
  {
    hide Covers, RecordedRegions;
    var n := |entries| - 1;
    forall f: nat, i: nat | i < n
      ensures RecordedBy(entries, kernelEnd, f, i) <==> RecordedBy(entries[..n], kernelEnd, f, i) {
      RecordedPrefix(entries, kernelEnd, f);
    }
  }

  // The frames of the table are pairwise distinct if and only if no page is
  // recorded for two entries of the memory map.
  lemma {:induction false} DistinctIffRecordedOnce(entries: seq<MapEntry>, kernelEnd: Word)
    ensures Distinct(AllFrames(RecordedRegions(entries, kernelEnd))) <==> RecordedOnce(entries, kernelEnd)
  {
    if entries != [] {
      hide AllFrames, Covers, AddedEntry, Recorded, RecordedOnce, Distinct;
      var n := |entries| - 1;
      var rs := RecordedRegions(entries[..n], kernelEnd);
      DistinctIffRecordedOnce(entries[..n], kernelEnd);
      RecordedFramesExact(entries[..n], kernelEnd);
      RecordedOnceSnoc(entries, kernelEnd);
      if |rs| < MAX_MEMORY_REGIONS {
        var p := AddedEntryFrames(rs, entries[n], kernelEnd);
        DistinctConcat(AllFrames(rs), p);
        forall f: nat | Recorded(entries[..n], kernelEnd, f)
          ensures RecordedBy(entries, kernelEnd, f, n) <==> f in p {
          RecordedIsReal(entries[..n], kernelEnd, f);
        }
      } else {
        FullTable(rs, entries[n], kernelEnd);
      }
    }
  }

  lemma RecordedIsReal(entries: seq<MapEntry>, kernelEnd: Word, f: nat)
    requires Recorded(entries, kernelEnd, f)
    ensures RealPage(kernelEnd, f)
  {
  }

  lemma FullTable(rs: seq<Region>, e: MapEntry, kernelEnd: Word)
    requires |rs| == MAX_MEMORY_REGIONS
    ensures AddedEntry(rs, e, kernelEnd) == rs
  {
  }

  // The same with the fallback range, which stands alone.
  lemma AllocationRepeats(entries: seq<MapEntry>, kernelEnd: Word)
    ensures Distinct(AllFrames(InitialRegions(entries, kernelEnd))) <==> RecordedOnce(entries, kernelEnd)
  {
    hide RecordedRegions, AlignUp, AlignDown, RecordedOnce;
    DistinctIffRecordedOnce(entries, kernelEnd);
    if RecordedRegions(entries, kernelEnd) == [] {
      var p := AddedPages([], kernelEnd, FALLBACK_END);
      assert AllFrames([]) + p == p;
    }
  }

  /** Some page of the memory map is recorded. */
  ghost predicate AnyRecorded(entries: seq<MapEntry>, kernelEnd: Word)
  {
    exists f: nat :: Recorded(entries, kernelEnd, f)
  }

  // A recorded region holds a page, so an empty table means that nothing is recorded.
  lemma EmptyTable(entries: seq<MapEntry>, kernelEnd: Word)
    ensures RecordedRegions(entries, kernelEnd) == [] <==> !AnyRecorded(entries, kernelEnd)
  {
    hide RecordedRegions, Recorded;
    var rs := RecordedRegions(entries, kernelEnd);
    RecordedFramesExact(entries, kernelEnd);
    if rs != [] {
      var f := rs[0].start / PAGE_SIZE;
      assert WellFormed(rs[0], kernelEnd);
      assert f in RegionFrames(rs[0]);
      InAllFrames(rs, f);
      assert Recorded(entries, kernelEnd, f);
    }
  }

  lemma NothingUsable(entries: seq<MapEntry>, kernelEnd: Word)
    requires forall i :: 0 <= i < |entries| ==> entries[i].kind != 1
    ensures !AnyRecorded(entries, kernelEnd)
  {
  }

  // The frames of the table: the recorded pages, or, when there are none, every
  // whole page from the end of the kernel to 128 MiB.
  lemma InitialFramesExact(entries: seq<MapEntry>, kernelEnd: Word)
    ensures forall f: nat :: f in AllFrames(InitialRegions(entries, kernelEnd)) <==>
              if AnyRecorded(entries, kernelEnd) then Recorded(entries, kernelEnd, f)
              else kernelEnd <= f * 4096 && (f + 1) * 4096 <= 0x800_0000
  {
    hide RecordedRegions, AddedRegion, Recorded;
    RecordedFramesExact(entries, kernelEnd);
    EmptyTable(entries, kernelEnd);
    var p := AddedPages([], kernelEnd, FALLBACK_END);
    assert AllFrames([]) + p == p;
  }

  // The fallback frames come one after the other from the end of the kernel on.
  lemma FallbackOrder(entries: seq<MapEntry>, kernelEnd: Word)
    requires !AnyRecorded(entries, kernelEnd) && kernelEnd % 4096 == 0
    ensures var fs := AllFrames(InitialRegions(entries, kernelEnd));
            && |fs| == (if kernelEnd < 0x800_0000 then (0x800_0000 - kernelEnd) / 4096 else 0)
            && forall n :: 0 <= n < |fs| ==> fs[n] * 4096 == kernelEnd + n * 4096
  {
    hide RecordedRegions, Recorded, AlignUp, AlignDown;
    EmptyTable(entries, kernelEnd);
    AlignBounds(kernelEnd);
    AlignBounds(FALLBACK_END);
    if kernelEnd < FALLBACK_END {
      var r := Region(kernelEnd, FALLBACK_END);
      assert AddedRegion([], kernelEnd, FALLBACK_END) == [] + [r];
      AllFramesSnoc([], r);
      assert AllFrames([]) + RegionFrames(r) == RegionFrames(r);
      QuotientIs(FALLBACK_END - kernelEnd, 4096, FALLBACK_END / 4096 - kernelEnd / 4096, 0);
      RangeLength(kernelEnd / 4096, FALLBACK_END / 4096);
    }
  }

  lemma RangeLength(low: nat, high: nat)
    requires low <= high
    ensures |FrameRange(low, high)| == high - low
  {
  }

  lemma InitialWellFormed(entries: seq<MapEntry>, kernelEnd: Word)
    ensures AllWellFormed(InitialRegions(entries, kernelEnd), kernelEnd)
  {
    hide RecordedRegions, AlignUp, AlignDown;
    RecordedFramesExact(entries, kernelEnd);
    AddedRegionFrames([], kernelEnd, FALLBACK_END, kernelEnd);
  }

  // An entry that is listed twice has its pages handed out twice.
  lemma RepeatedEntryRepeats(e: MapEntry, kernelEnd: Word, f: nat)
    requires RealPage(kernelEnd, f) && Covers(e, f)
    ensures !Distinct(AllFrames(InitialRegions([e, e], kernelEnd)))
  {
    hide AddedEntry, AllFrames, InitialRegions, Distinct, Covers;
    AllocationRepeats([e, e], kernelEnd);
    assert [e, e][..0] == [] && [e, e][..1] == [e] && [e][..0] == [];
    AtMostOneMore([], e, kernelEnd);
    assert RecordedBy([e, e], kernelEnd, f, 0) && RecordedBy([e, e], kernelEnd, f, 1);
  }

  // Such a map: the two pages from 2 MiB on, listed twice.
  lemma OverlapHandsOutTwice(kernelEnd: Word)
    requires kernelEnd <= 0x20_0000
    ensures var e := MapEntry(0x20_0000, 0x2000, 1);
            !Distinct(AllFrames(InitialRegions([e, e], kernelEnd)))
  {
    hide AllFrames, InitialRegions, Distinct;
    RepeatedEntryRepeats(MapEntry(0x20_0000, 0x2000, 1), kernelEnd, 0x200);
  }

  lemma AtMostOneMore(rs: seq<Region>, e: MapEntry, kernelEnd: Word)
    ensures |AddedEntry(rs, e, kernelEnd)| <= |rs| + 1
  {
  }

  // Disjoint usable entries, in any order, give disjoint regions.
  lemma {:induction false} DisjointEntriesDisjointRegions(entries: seq<MapEntry>, kernelEnd: Word)
    requires EntriesDisjoint(entries)
    ensures AllWellFormed(RecordedRegions(entries, kernelEnd), kernelEnd)
    ensures RegionsDisjoint(RecordedRegions(entries, kernelEnd))
    ensures forall k :: 0 <= k < |RecordedRegions(entries, kernelEnd)| ==>
                     FromEntry(RecordedRegions(entries, kernelEnd)[k], entries)
    decreases |entries|, 1
  {
    if entries != [] {
      DisjointStep(entries, kernelEnd);
    }
  }

  lemma {:induction false} DisjointStep(entries: seq<MapEntry>, kernelEnd: Word)
    requires EntriesDisjoint(entries) && entries != []
    ensures AllWellFormed(RecordedRegions(entries, kernelEnd), kernelEnd)
    ensures RegionsDisjoint(RecordedRegions(entries, kernelEnd))
    ensures forall k :: 0 <= k < |RecordedRegions(entries, kernelEnd)| ==>
                     FromEntry(RecordedRegions(entries, kernelEnd)[k], entries)
    decreases |entries|, 0
  {
    hide AddedEntry, WellFormed, Within, Overlap, FromEntry;
    var n := |entries| - 1;
    var rs := RecordedRegions(entries[..n], kernelEnd);
    DisjointEntriesDisjointRegions(entries[..n], kernelEnd);
    var added := AddedEntry(rs, entries[n], kernelEnd);
    assert added == RecordedRegions(entries, kernelEnd);
    forall k | 0 <= k < |rs| ensures FromEntry(rs[k], entries) {
      FromLonger(rs[k], entries);
    }
    AddedWithin(rs, entries[n], kernelEnd);
    if added != rs {
      var r := added[|rs|];
      LastWithin(r, entries);
      forall k | 0 <= k < |rs| ensures !Overlap(rs[k], r) {
        ApartFromLast(rs[k], r, entries);
      }
    }
  }

  // An entry appends at most one region, which lies inside it.
  lemma AddedWithin(rs: seq<Region>, e: MapEntry, kernelEnd: Word)
    requires AllWellFormed(rs, kernelEnd)
    ensures var added := AddedEntry(rs, e, kernelEnd);
            && AllWellFormed(added, kernelEnd)
            && (added == rs || (|added| == |rs| + 1 && added[..|rs|] == rs && Within(added[|rs|], e)))
  {
    hide AlignUp, AlignDown, AllFrames, PageWithin;
    var start, end := Max(e.address, kernelEnd), WordAdd(e.address, e.length);
    AddedRegionFrames(rs, start, end, kernelEnd);
    AlignBounds(start);
    AlignBounds(Min(end, IDENTITY_MAPPED_LIMIT));
  }

  lemma FromLonger(r: Region, entries: seq<MapEntry>)
    requires entries != [] && FromEntry(r, entries[..|entries| - 1])
    ensures FromEntry(r, entries)
  {
    hide Within;
    var i :| 0 <= i < |entries| - 1 && Within(r, entries[..|entries| - 1][i]);
    assert Within(r, entries[i]);
  }

  lemma LastWithin(r: Region, entries: seq<MapEntry>)
    requires entries != [] && Within(r, entries[|entries| - 1])
    ensures FromEntry(r, entries)
  {
  }

  lemma ApartFromLast(a: Region, r: Region, entries: seq<MapEntry>)
    requires entries != [] && EntriesDisjoint(entries)
    requires FromEntry(a, entries[..|entries| - 1]) && Within(r, entries[|entries| - 1])
    ensures !Overlap(a, r)
  {
    var i :| 0 <= i < |entries| - 1 && Within(a, entries[..|entries| - 1][i]);
    assert Within(a, entries[i]);
  }

  predicate Within(r: Region, e: MapEntry)
  {
    e.kind == 1 && e.address <= r.start && r.end <= e.address + e.length
  }

  ghost predicate FromEntry(r: Region, entries: seq<MapEntry>)
  {
    exists i :: 0 <= i < |entries| && Within(r, entries[i])
  }

  // The allocation order of a memory map without overlaps: distinct frames,
  // each a whole page above the kernel and below 1 GiB, inside a usable entry
  // or, when no entry is usable, in the fallback range.
  lemma AllocationOrder(entries: seq<MapEntry>, kernelEnd: Word)
    requires EntriesDisjoint(entries)
    ensures Distinct(AllFrames(InitialRegions(entries, kernelEnd)))
    ensures forall f: nat :: f in AllFrames(InitialRegions(entries, kernelEnd)) ==>
              && f < FRAME_COUNT && kernelEnd <= f * PAGE_SIZE
              && (Usable(entries, kernelEnd, f)
                  || (RecordedRegions(entries, kernelEnd) == [] && PageWithin(f, kernelEnd, FALLBACK_END)))
    ensures AllWellFormed(InitialRegions(entries, kernelEnd), kernelEnd)
  {
    var rs := RecordedRegions(entries, kernelEnd);
    RecordedFramesUsable(entries, kernelEnd);
    DisjointEntriesDisjointRegions(entries, kernelEnd);
    AddedRegionFrames([], kernelEnd, FALLBACK_END, kernelEnd);
    assert AllFrames([]) == [];
    DistinctIffDisjoint(InitialRegions(entries, kernelEnd), kernelEnd);
  }

  /** The total that `add_region` accumulates. */
  function PageTotal(rs: seq<Region>): nat
    requires forall i :: 0 <= i < |rs| ==> rs[i].start <= rs[i].end
  {
    if rs == [] then 0
    else PageTotal(rs[..|rs| - 1]) + (rs[|rs| - 1].end - rs[|rs| - 1].start) / PAGE_SIZE
  }

  lemma TotalSnoc(rs: seq<Region>, r: Region, kernelEnd: nat)
    requires AllWellFormed(rs, kernelEnd) && r.start <= r.end
    ensures forall i :: 0 <= i < |rs| ==> rs[i].start <= rs[i].end
    ensures forall i :: 0 <= i < |rs + [r]| ==> (rs + [r])[i].start <= (rs + [r])[i].end
    ensures PageTotal(rs + [r]) == PageTotal(rs) + (r.end - r.start) / PAGE_SIZE
  {
    assert forall i :: 0 <= i < |rs| ==> WellFormed(rs[i], kernelEnd);
    assert (rs + [r])[..|rs|] == rs;
  }

  lemma AddedWellFormed(rs: seq<Region>, start: Word, end: Word, kernelEnd: nat)
    requires AllWellFormed(rs, kernelEnd) && kernelEnd <= start
    ensures AllWellFormed(AddedRegion(rs, start, end), kernelEnd)
  {
    hide AlignUp, AlignDown, AllFrames, PageWithin;
    AddedRegionFrames(rs, start, end, kernelEnd);
  }

  // The counted pages are exactly the frames of the table: slack is not counted.
  lemma {:induction false} TotalCountsFrames(rs: seq<Region>, kernelEnd: nat)
    requires AllWellFormed(rs, kernelEnd)
    ensures PageTotal(rs) == |AllFrames(rs)|
  {
    if rs != [] {
      var n := |rs| - 1;
      TotalCountsFrames(rs[..n], kernelEnd);
      AllFramesSnoc(rs[..n], rs[n]);
      assert rs == rs[..n] + [rs[n]];
    }
  }

  /** The cursor stands right after the first `used` frames of the table. */
  predicate CursorAfter(rs: seq<Region>, current: nat, next: nat, used: nat)
  {
    && next % PAGE_SIZE == 0
    && current <= |rs|
    && (current < |rs| ==> next <= rs[current].end)
    && used <= |AllFrames(rs)|
    && FramesFrom(rs, current, next) == AllFrames(rs)[used..]
  }

  lemma CursorStarts(rs: seq<Region>, kernelEnd: nat)
    requires AllWellFormed(rs, kernelEnd) && kernelEnd % PAGE_SIZE == 0
    ensures CursorAfter(rs, 0, kernelEnd, 0)
  {
  }

  // Moving the cursor up to its region, and from an exhausted region to the
  // next one, skips no counted page.
  lemma CursorMoves(rs: seq<Region>, current: nat, next: nat, used: nat, kernelEnd: nat)
    requires AllWellFormed(rs, kernelEnd) && CursorAfter(rs, current, next, used) && current < |rs|
    ensures var n := Max(next, rs[current].start);
            && rs[current].start <= n <= rs[current].end <= IDENTITY_MAPPED_LIMIT
            && CursorAfter(rs, current, n, used)
            && (current + 1 < |rs| ==> rs[current + 1].start < IDENTITY_MAPPED_LIMIT)
            && (n + PAGE_SIZE > rs[current].end ==>
                  CursorAfter(rs, current + 1, if current + 1 < |rs| then rs[current + 1].start else n, used))
  {
  }

  lemma CursorAtEnd(rs: seq<Region>, current: nat, next: nat, used: nat)
    requires CursorAfter(rs, current, next, used)
    ensures current <= |rs| && used <= |AllFrames(rs)|
    ensures current == |rs| ==> used == |AllFrames(rs)|
  {
  }

  lemma FirstFrame(rs: seq<Region>, current: nat, next: nat)
    requires current < |rs| && next % PAGE_SIZE == 0 && rs[current].end % PAGE_SIZE == 0
    requires rs[current].start <= next && next + PAGE_SIZE <= rs[current].end
    ensures FramesFrom(rs, current, next) == [next / PAGE_SIZE] + FramesFrom(rs, current, next + PAGE_SIZE)
  {
    hide AllFrames, FrameRange;
    var low, high := next / PAGE_SIZE, rs[current].end / PAGE_SIZE;
    NextPage(next, rs[current].end);
    RangeHead(low, high);
    assert [low] + FrameRange(low + 1, high) + AllFrames(rs[current + 1..])
           == [low] + (FrameRange(low + 1, high) + AllFrames(rs[current + 1..]));
  }

  lemma NextPage(next: nat, end: nat)
    requires next % PAGE_SIZE == 0 && end % PAGE_SIZE == 0 && next + PAGE_SIZE <= end
    ensures (next + PAGE_SIZE) / PAGE_SIZE == next / PAGE_SIZE + 1 <= end / PAGE_SIZE
  {
    QuotientIs(next + PAGE_SIZE, PAGE_SIZE, next / PAGE_SIZE + 1, 0);
  }

  lemma RangeHead(low: nat, high: nat)
    requires low < high
    ensures FrameRange(low, high) == [low] + FrameRange(low + 1, high)
  {
    var tail := FrameRange(low + 1, high);
    assert |FrameRange(low, high)| == high - low && |tail| == high - low - 1;
  }

  lemma DropOne(s: seq<nat>, used: nat, first: nat, rest: seq<nat>)
    requires used <= |s| && s[used..] == [first] + rest
    ensures used < |s| && s[used] == first && s[used + 1..] == rest && s[used..] == [first] + s[used + 1..]
  {
  }

  // Taking the page at the cursor takes the next frame of the table.
  lemma CursorTakesPage(rs: seq<Region>, current: nat, next: nat, used: nat, kernelEnd: nat)
    requires AllWellFormed(rs, kernelEnd) && CursorAfter(rs, current, next, used)
    requires current < |rs| && rs[current].start <= next && next + PAGE_SIZE <= rs[current].end
    ensures used < |AllFrames(rs)| && AllFrames(rs)[used] == next / PAGE_SIZE
    ensures CursorAfter(rs, current, next + PAGE_SIZE, used + 1)
    ensures AllFrames(rs)[used..] == [next / PAGE_SIZE] + AllFrames(rs)[used + 1..]
    ensures next / PAGE_SIZE * PAGE_SIZE == next
  {
    hide AllFrames, FramesFrom;
    assert WellFormed(rs[current], kernelEnd);
    FirstFrame(rs, current, next);
    DropOne(AllFrames(rs), used, next / PAGE_SIZE, FramesFrom(rs, current, next + PAGE_SIZE));
  }

  // Every frame of a sound table is a real frame: never frame 0, always below 1 GiB.
  lemma FramesAreReal(rs: seq<Region>, kernelEnd: nat, f: nat)
    requires AllWellFormed(rs, kernelEnd) && KERNEL_BASE <= kernelEnd && f in AllFrames(rs)
    ensures 0 < f < FRAME_COUNT && kernelEnd <= f * PAGE_SIZE
  {
  }

  // ---- The allocator object ----

  class Allocator {
    // Physical memory below 1 GiB.
    const frames: array<Frame>
    const regions: array<Region>
    const kernelEnd: Word
    var regionCount: nat
    var currentRegion: nat
    var nextPage: Word
    var pagesTotal: nat
    var pagesUsed: nat

    /** The recorded part of the region table. */
    ghost function Table(): seq<Region>
      reads this, regions
      requires regionCount <= regions.Length
    {
      regions[..regionCount]
    }

    /** The table is sound, and the cursor stands after exactly `pagesUsed` of its frames. */
    ghost predicate Valid()
      reads this, regions
    {
      && frames.Length == FRAME_COUNT
      && regions.Length == MAX_MEMORY_REGIONS
      && KERNEL_BASE <= kernelEnd
      && regionCount <= regions.Length
      && AllWellFormed(Table(), kernelEnd)
      && nextPage <= WORD_LIMIT - PAGE_SIZE
      && CursorAfter(Table(), currentRegion, nextPage, pagesUsed)
      && pagesTotal == |AllFrames(Table())|
    }

    /** The frames not handed out yet, in the order they will be. */
    ghost function Free(): seq<nat>
      reads this, regions
      requires Valid()
    {
      AllFrames(Table())[pagesUsed..]
    }

    lemma FreeInRange()
      requires Valid()
      ensures forall i :: 0 <= i < |Free()| ==> 0 < Free()[i] < FRAME_COUNT
    {
      forall i | 0 <= i < |Free()| ensures 0 < Free()[i] < FRAME_COUNT {
        FramesAreReal(Table(), kernelEnd, AllFrames(Table())[pagesUsed + i]);
      }
    }

    constructor (frames: array<Frame>, entries: seq<MapEntry>, kernelEndSymbol: Word)
      requires frames.Length == FRAME_COUNT
      requires KERNEL_BASE <= kernelEndSymbol <= WORD_LIMIT - PAGE_SIZE
      ensures Valid() && fresh(regions) && this.frames == frames
      ensures kernelEnd == AlignUp(kernelEndSymbol)
      ensures Table() == InitialRegions(entries, kernelEnd)
      ensures pagesUsed == 0 && Free() == AllFrames(Table())
      ensures forall f: nat :: f in Free() <==>
                if AnyRecorded(entries, kernelEnd) then Recorded(entries, kernelEnd, f)
                else kernelEnd <= f * 4096 && (f + 1) * 4096 <= 0x800_0000
      ensures !AnyRecorded(entries, kernelEnd) ==>
                && |Free()| == (if kernelEnd < 0x800_0000 then (0x800_0000 - kernelEnd) / 4096 else 0)
                && forall n :: 0 <= n < |Free()| ==> Free()[n] * 4096 == kernelEnd + n * 4096
    {
      hide AlignUp, AlignDown, AddedEntry, AddedRegion, CursorAfter, AllFrames, Recorded, AnyRecorded;
      AlignBounds(kernelEndSymbol);
      this.frames := frames;
      this.regions := new Region[MAX_MEMORY_REGIONS](i => Region(0, 0));
      this.kernelEnd := AlignUp(kernelEndSymbol);
      regionCount, currentRegion, nextPage := 0, 0, AlignUp(kernelEndSymbol);
      pagesTotal, pagesUsed := 0, 0;
      new;
      for i := 0 to |entries|
        invariant regionCount <= regions.Length == MAX_MEMORY_REGIONS
        invariant Table() == RecordedRegions(entries[..i], kernelEnd)
        invariant AllWellFormed(Table(), kernelEnd) && pagesTotal == PageTotal(Table())
        invariant currentRegion == 0 && nextPage == kernelEnd && pagesUsed == 0
      {
        assert entries[..i + 1][..i] == entries[..i];
        AddEntry(entries[i]);
      }
      assert entries[..|entries|] == entries;
      if regionCount == 0 {
        assert Table() == [];
        AddRegion(kernelEnd, FALLBACK_END);
      }
      TotalCountsFrames(Table(), kernelEnd);
      CursorStarts(Table(), kernelEnd);
      InitialFramesExact(entries, kernelEnd);
      assert Free() == AllFrames(Table());
      if !AnyRecorded(entries, kernelEnd) {
        FallbackOrder(entries, kernelEnd);
      }
    }

    // The body of the loop over the memory map.
    method AddEntry(e: MapEntry)
      requires regionCount <= regions.Length == MAX_MEMORY_REGIONS
      requires AllWellFormed(Table(), kernelEnd) && pagesTotal == PageTotal(Table())
      modifies this`regionCount, this`pagesTotal, regions
      ensures regionCount <= regions.Length
      ensures Table() == AddedEntry(old(Table()), e, kernelEnd)
      ensures AllWellFormed(Table(), kernelEnd) && pagesTotal == PageTotal(Table())
    {
      hide AddedRegion, AllWellFormed, PageTotal;
      if e.kind == 1 && e.length != 0 {
        var end := WordAdd(e.address, e.length);
        if end > e.address {
          var start := if e.address < kernelEnd then kernelEnd else e.address;
          AddRegion(start, end);
        }
      }
    }

    method AddRegion(start: Word, end: Word)
      requires regionCount <= regions.Length == MAX_MEMORY_REGIONS
      requires AllWellFormed(Table(), kernelEnd) && kernelEnd <= start
      requires pagesTotal == PageTotal(Table())
      modifies this`regionCount, this`pagesTotal, regions
      ensures regionCount <= regions.Length
      ensures Table() == AddedRegion(old(Table()), start, end)
      ensures AllWellFormed(Table(), kernelEnd) && pagesTotal == PageTotal(Table())
    {
      hide AlignUp, AlignDown, WellFormed, PageTotal;
      AddedWellFormed(Table(), start, end, kernelEnd);
      if start >= IDENTITY_MAPPED_LIMIT {
        return;
      }
      var cut := end;
      if cut > IDENTITY_MAPPED_LIMIT {
        cut := IDENTITY_MAPPED_LIMIT;
      }
      if regionCount == MAX_MEMORY_REGIONS || cut <= start {
        return;
      }
      var alignedStart := AlignUp(start);
      var alignedEnd := AlignDown(cut);
      if alignedEnd <= alignedStart {
        return;
      }
      ghost var before := Table();
      regions[regionCount] := Region(alignedStart, alignedEnd);
      regionCount := regionCount + 1;
      pagesTotal := pagesTotal + (alignedEnd - alignedStart) / PAGE_SIZE;
      assert Table() == before + [Region(alignedStart, alignedEnd)];
      TotalSnoc(before, Region(alignedStart, alignedEnd), kernelEnd);
    }

    // Returns the address of the next free frame, zeroed, or 0 exactly when
    // every counted page has been handed out.
    method AllocPage() returns (page: Word)
      requires Valid()
      modifies this`currentRegion, this`nextPage, this`pagesUsed, frames
      ensures Valid() && Table() == old(Table())
      ensures page == 0 <==> old(pagesUsed) == pagesTotal
      ensures page == 0 ==> pagesUsed == old(pagesUsed) && frames[..] == old(frames[..])
      ensures page != 0 ==>
                && pagesUsed == old(pagesUsed) + 1
                && var f := AllFrames(Table())[old(pagesUsed)];
                && page == f * PAGE_SIZE && f < FRAME_COUNT && kernelEnd <= page
                && frames[..] == old(frames[..])[f := ZeroFrame()]
      ensures page == 0 ==> old(Free()) == Free() == []
      ensures page != 0 ==> old(Free()) == [page / PAGE_SIZE] + Free()
    {
      hide CursorAfter, FramesFrom;
      ghost var rs := Table();
      while currentRegion < regionCount
        invariant Table() == rs && pagesUsed == old(pagesUsed)
        invariant CursorAfter(rs, currentRegion, nextPage, pagesUsed)
        invariant nextPage <= WORD_LIMIT - PAGE_SIZE
        invariant frames[..] == old(frames[..])
        decreases regionCount - currentRegion
      {
        var region := regions[currentRegion];
        assert region == rs[currentRegion];
        CursorMoves(rs, currentRegion, nextPage, pagesUsed, kernelEnd);
        if nextPage < region.start {
          nextPage := region.start;
        }
        if WordAdd(nextPage, PAGE_SIZE) <= nextPage || WordAdd(nextPage, PAGE_SIZE) > region.end {
          currentRegion := currentRegion + 1;
          if currentRegion < regionCount {
            assert regions[currentRegion] == rs[currentRegion];
            nextPage := regions[currentRegion].start;
          }
          continue;
        }
        page := TakePage();
        return;
      }
      CursorAtEnd(rs, currentRegion, nextPage, pagesUsed);
      page := 0;
    }

    // The end of the allocation loop: the page at the cursor fits its region.
    method TakePage() returns (page: Word)
      requires Valid() && currentRegion < regionCount
      requires regions[currentRegion].start <= nextPage && nextPage + PAGE_SIZE <= regions[currentRegion].end
      modifies this`nextPage, this`pagesUsed, frames
      ensures Valid() && Table() == old(Table())
      ensures pagesUsed == old(pagesUsed) + 1 <= pagesTotal
      ensures page == AllFrames(Table())[old(pagesUsed)] * PAGE_SIZE
      ensures kernelEnd <= page < IDENTITY_MAPPED_LIMIT
      ensures frames[..] == old(frames[..])[page / PAGE_SIZE := ZeroFrame()]
      ensures old(Free()) == [page / PAGE_SIZE] + Free()
    {
      hide CursorAfter, AllFrames, FramesFrom, ZeroFrame;
      ghost var rs := Table();
      assert rs[currentRegion] == regions[currentRegion] && WellFormed(rs[currentRegion], kernelEnd);
      CursorTakesPage(rs, currentRegion, nextPage, pagesUsed, kernelEnd);
      page := nextPage;
      nextPage := nextPage + PAGE_SIZE;
      pagesUsed := pagesUsed + 1;
      ZeroPage(page / PAGE_SIZE);
      assert Table() == rs;
    }

    // Clears a page byte by byte.
    method ZeroPage(f: nat)
      requires f < frames.Length
      modifies frames
      ensures frames[..] == old(frames[..])[f := ZeroFrame()]
    {
      for offset := 0 to PAGE_SIZE
        invariant forall k :: 0 <= k < offset ==> FrameByte(frames[f], k) == 0
        invariant frames[..] == old(frames[..])[f := frames[f]]
      {
        frames[f] := SetFrameByte(frames[f], offset, 0);
      }
      ZeroBytesZeroFrame(frames[f]);
    }

    method PagesTotal() returns (n: nat)
      requires Valid()
      ensures n == |AllFrames(Table())|
    {
      n := pagesTotal;
    }

    method PagesUsed() returns (n: nat)
      requires Valid()
      ensures n == |AllFrames(Table())| - |Free()|
    {
      n := pagesUsed;
    }

    method PagesFree() returns (n: nat)
      requires Valid()
      ensures n == |Free()|
    {
      n := if pagesUsed < pagesTotal then pagesTotal - pagesUsed else 0;
    }
  }
}
