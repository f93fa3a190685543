// Cluster chains as the FAT links them, and what the reader makes of them: it
// follows a chain up to the first cluster whose entry it does not look up.
module FatChains {
  import opened Wrappers
  import opened Bits
  import opened FatVolume

  // ---- Entries ----

  /** The sector of the FAT that holds the entry of a cluster. */
  function FatSector(v: Volume, cluster: U32): U32
  {
    (v.partitionLba + v.reservedSectors + cluster / 128) % LIMIT32
  }

  /** The entry of a cluster: its 32-bit word in the FAT less the top four bits, if it can be read. */
  function FatEntry(d: Disk, v: Volume, cluster: U32): Option<U32>
  {
    var s := FatSector(v, cluster);
    if s in d then Some(Read32(d[s], cluster % 128 * 4) % 0x1000_0000) else None
  }

  // The reader sees the entries of clusters up to 0x03ffffff; any other is the
  // bad mark to it, whatever the FAT says.
  lemma NextClusterReadsFat(d: Disk, v: Volume, cluster: U32)
    requires Mountable(v)
    ensures NextCluster(d, v, cluster) ==
            if cluster <= 0x3ff_ffff && FatEntry(d, v, cluster).Some? then FatEntry(d, v, cluster).value
            else 0xfff_fff7
    ensures FatEntry(d, v, cluster).Some? && FatEntry(d, v, cluster).value != 0xfff_fff7 ==>
              (NextCluster(d, v, cluster) == FatEntry(d, v, cluster).value <==> cluster <= 0x3ff_ffff)
  {
    FatOffset(cluster);
  }

  // ---- Chains ----

  predicate DataClusters(chain: seq<U32>)
  {
    forall i :: 0 <= i < |chain| ==> 2 <= chain[i] < 0xfff_fff7
  }

  /** The FAT entry of the i-th cluster is the next cluster. */
  predicate LinkedAt(d: Disk, v: Volume, chain: seq<U32>, i: nat)
    requires i + 1 < |chain|
  {
    FatEntry(d, v, chain[i]) == Some(chain[i + 1])
  }

  /** Data clusters, each but the last with the next one in its FAT entry. */
  predicate Linked(d: Disk, v: Volume, chain: seq<U32>)
  {
    && chain != [] && DataClusters(chain)
    && forall i :: 0 <= i < |chain| - 1 ==> LinkedAt(d, v, chain, i)
  }

  /** A whole chain in good order: the entry of its last cluster is an end mark. */
  predicate GoodChain(d: Disk, v: Volume, chain: seq<U32>)
  {
    && Linked(d, v, chain)
    && var last := FatEntry(d, v, chain[|chain| - 1]);
       last.Some? && last.value >= 0xfff_fff8
  }

  /** The reader goes from the i-th cluster to the next one. */
  predicate FollowedAt(d: Disk, v: Volume, chain: seq<U32>, i: nat)
    requires Mountable(v) && i + 1 < |chain|
  {
    NextCluster(d, v, chain[i]) == chain[i + 1]
  }

  /** Data clusters that the reader visits one after the other. */
  predicate Followed(d: Disk, v: Volume, chain: seq<U32>)
    requires Mountable(v)
  {
    && chain != [] && DataClusters(chain)
    && forall i :: 0 <= i < |chain| - 1 ==> FollowedAt(d, v, chain, i)
  }

  // The reader follows a chain of the FAT if and only if it looks up the entry
  // of every cluster but the last.
  lemma FollowedIffLow(d: Disk, v: Volume, chain: seq<U32>)
    requires Mountable(v) && Linked(d, v, chain)
    ensures Followed(d, v, chain) <==> forall i :: 0 <= i < |chain| - 1 ==> chain[i] <= 0x3ff_ffff
  {
    hide FollowedAt, LinkedAt;
    forall i | 0 <= i < |chain| - 1
      ensures FollowedAt(d, v, chain, i) <==> chain[i] <= LAST_FOLLOWED {
      FollowedAtLow(d, v, chain, i);
    }
  }

  lemma FollowedAtLow(d: Disk, v: Volume, chain: seq<U32>, i: nat)
    requires Mountable(v) && i + 1 < |chain| && LinkedAt(d, v, chain, i) && chain[i + 1] < BAD_CLUSTER
    ensures FollowedAt(d, v, chain, i) <==> chain[i] <= LAST_FOLLOWED
  {
    hide NextCluster, FatEntry;
    NextClusterReadsFat(d, v, chain[i]);
  }

  lemma FollowedTail(d: Disk, v: Volume, chain: seq<U32>)
    requires Mountable(v) && Followed(d, v, chain) && |chain| > 1
    ensures NextCluster(d, v, chain[0]) == chain[1] && Followed(d, v, chain[1..])
  {
    hide NextCluster;
    assert FollowedAt(d, v, chain, 0);
    forall i | 0 <= i < |chain| - 2 ensures FollowedAt(d, v, chain[1..], i) {
      assert FollowedAt(d, v, chain, i + 1);
    }
  }

  /** The chain up to the first cluster whose entry the reader does not look up. */
  function Reach(chain: seq<U32>): (r: seq<U32>)
    ensures r <= chain && (chain != [] ==> r != [])
    ensures forall i :: 0 <= i < |r| - 1 ==> r[i] <= LAST_FOLLOWED
    ensures r == chain || r[|r| - 1] > LAST_FOLLOWED
  {
    if chain == [] || chain[0] > LAST_FOLLOWED then chain[..Min(1, |chain|)]
    else [chain[0]] + Reach(chain[1..])
  }

  function Cut(chain: seq<U32>): (r: seq<U32>)
    ensures r <= chain && |r| == Min(|chain|, 1024)
  {
    chain[..Min(|chain|, MAX_CLUSTER_STEPS)]
  }

  function BadMarks(n: nat): (r: seq<U32>)
    ensures |r| == n && forall i :: 0 <= i < n ==> r[i] == BAD_CLUSTER
  {
    seq(n, i => BAD_CLUSTER)
  }

  /** The clusters the reader visits: what it reaches of the chain, then the bad mark again and again. */
  function Visited(chain: seq<U32>): (r: seq<U32>)
    requires chain != []
    ensures |r| <= MAX_CLUSTER_STEPS
    ensures DataClusters(chain) ==> forall i :: 0 <= i < |r| ==> r[i] >= 2
  {
    var r := Reach(chain);
    Cut(if r[|r| - 1] > LAST_FOLLOWED then r + BadMarks(MAX_CLUSTER_STEPS) else r)
  }

  // The reader visits exactly the first 1024 clusters of a chain if and only if
  // all but the last of them, and the last of the chain itself, have their
  // entries looked up.
  lemma VisitedIsChain(chain: seq<U32>)
    requires chain != [] && DataClusters(chain)
    ensures Visited(chain) == Cut(chain) <==>
            forall i :: 0 <= i < |chain| && i < 1023 ==> chain[i] <= 0x3ff_ffff
  {
    var r := Reach(chain);
    var last := |r| - 1;
    if r[last] > LAST_FOLLOWED && last < MAX_CLUSTER_STEPS - 1 {
      assert Visited(chain)[last + 1] == BAD_CLUSTER;
      assert chain[last] == r[last];
    }
  }

  // ---- The walk ----

  function FlatLbas(v: Volume, chain: seq<U32>): seq<U32>
    requires forall i :: 0 <= i < |chain| ==> chain[i] >= 2
  {
    if chain == [] then [] else ClusterLbas(v, chain[0], 0) + FlatLbas(v, chain[1..])
  }

  lemma {:induction false} FlatLbasConcat(v: Volume, a: seq<U32>, b: seq<U32>)
    requires forall i :: 0 <= i < |a| ==> a[i] >= 2
    requires forall i :: 0 <= i < |b| ==> b[i] >= 2
    ensures FlatLbas(v, a + b) == FlatLbas(v, a) + FlatLbas(v, b)
  {
    hide ClusterLbas;
    if a == [] {
      assert a + b == b;
    } else {
      assert (a + b)[1..] == a[1..] + b;
      FlatLbasConcat(v, a[1..], b);
    }
  }

  // The walk goes through the clusters it follows and on from there.
  lemma {:induction false} WalkThroughFollowed(d: Disk, v: Volume, chain: seq<U32>, steps: nat)
    requires Mountable(v) && Followed(d, v, chain) && steps + |chain| <= MAX_CLUSTER_STEPS
    ensures WalkLbas(d, v, chain[0], steps) ==
            FlatLbas(v, chain) + WalkLbas(d, v, NextCluster(d, v, chain[|chain| - 1]), steps + |chain|)
    decreases |chain|
  {
    hide NextCluster, ClusterLbas, WalkLbas, FollowedAt;
    var rest := chain[1..];
    var after := WalkLbas(d, v, NextCluster(d, v, chain[|chain| - 1]), steps + |chain|);
    WalkUnfolds(d, v, chain[0], steps);
    if rest == [] {
      assert FlatLbas(v, chain) == ClusterLbas(v, chain[0], 0) + [];
    } else {
      FollowedTail(d, v, chain);
      WalkThroughFollowed(d, v, rest, steps + 1);
      assert ClusterLbas(v, chain[0], 0) + (FlatLbas(v, rest) + after) == FlatLbas(v, chain) + after;
    }
  }

  // From the bad mark the walk never gets away.
  lemma {:induction false} WalkFromBadMark(d: Disk, v: Volume, steps: nat)
    requires Mountable(v) && steps <= MAX_CLUSTER_STEPS
    ensures WalkLbas(d, v, BAD_CLUSTER, steps) == FlatLbas(v, BadMarks(MAX_CLUSTER_STEPS - steps))
    decreases MAX_CLUSTER_STEPS - steps
  {
    hide ClusterLbas;
    if steps < MAX_CLUSTER_STEPS {
      WalkFromBadMark(d, v, steps + 1);
      var marks := BadMarks(MAX_CLUSTER_STEPS - steps);
      assert marks[1..] == BadMarks(MAX_CLUSTER_STEPS - steps - 1);
    }
  }

  lemma ReachIsFollowed(d: Disk, v: Volume, chain: seq<U32>, n: nat)
    requires Mountable(v) && Linked(d, v, chain) && 1 <= n <= |Reach(chain)| <= |chain|
    ensures Followed(d, v, chain[..n])
  {
    hide FatEntry, FollowedAt, Reach;
    var r := chain[..n];
    forall i | 0 <= i < n - 1 ensures LinkedAt(d, v, r, i) {
      assert LinkedAt(d, v, chain, i);
    }
    ReachIsLow(chain, n);
    FollowedIffLow(d, v, r);
  }

  lemma ReachIsLow(chain: seq<U32>, n: nat)
    requires n <= |Reach(chain)| <= |chain|
    ensures forall i :: 0 <= i < n - 1 ==> chain[..n][i] <= LAST_FOLLOWED
  {
    assert Reach(chain) <= chain;
  }

  /** Where the walk goes after what it reaches of a chain. */
  function Onward(d: Disk, v: Volume, chain: seq<U32>, steps: nat): seq<U32>
    requires Mountable(v) && chain != [] && steps + |Reach(chain)| <= MAX_CLUSTER_STEPS
  {
    var r := Reach(chain);
    if r[|r| - 1] > LAST_FOLLOWED then FlatLbas(v, BadMarks(MAX_CLUSTER_STEPS - steps - |r|))
    else WalkLbas(d, v, NextCluster(d, v, chain[|chain| - 1]), steps + |chain|)
  }

  // The walk goes through any chain of the FAT up to the first cluster whose
  // entry is not looked up, and on from there.
  lemma WalkThroughChain(d: Disk, v: Volume, chain: seq<U32>, steps: nat)
    requires Mountable(v) && Linked(d, v, chain) && steps + |Reach(chain)| <= MAX_CLUSTER_STEPS
    ensures WalkLbas(d, v, chain[0], steps) == FlatLbas(v, Reach(chain)) + Onward(d, v, chain, steps)
  {
    hide NextCluster, WalkLbas, FlatLbas, FatEntry, LinkedAt, FollowedAt, BadMarks, Reach;
    ReachIsPrefix(chain);
    var r := Reach(chain);
    assert r == chain[..|r|] && r[0] == chain[0];
    ReachIsFollowed(d, v, chain, |r|);
    WalkThroughFollowed(d, v, r, steps);
    if r[|r| - 1] > LAST_FOLLOWED {
      NextClusterReadsFat(d, v, r[|r| - 1]);
      WalkFromBadMark(d, v, steps + |r|);
    }
  }

  // On a whole chain in good order the walk is the concatenation of the
  // clusters visited.
  lemma WalkFollowsChain(d: Disk, v: Volume, chain: seq<U32>)
    requires Mountable(v) && GoodChain(d, v, chain)
    ensures WalkLbas(d, v, chain[0], 0) == FlatLbas(v, Visited(chain))
  {
    hide NextCluster, WalkLbas, FlatLbas, FatEntry, LinkedAt, FollowedAt;
    var r := Reach(chain);
    if Stopped(chain) {
      WalkStops(d, v, chain);
    } else {
      WalkThroughChain(d, v, chain, 0);
      assert Visited(chain) == r == chain;
      NextClusterReadsFat(d, v, chain[|chain| - 1]);
      WalkUnfolds(d, v, NextCluster(d, v, chain[|chain| - 1]), |chain|);
    }
  }

  /** The reader does not get to look at the entry of the last cluster. */
  predicate Stopped(chain: seq<U32>)
    requires chain != []
  {
    var r := Reach(chain);
    |r| >= MAX_CLUSTER_STEPS || r[|r| - 1] > LAST_FOLLOWED
  }

  lemma WalkStops(d: Disk, v: Volume, chain: seq<U32>)
    requires Mountable(v) && Linked(d, v, chain) && Stopped(chain)
    ensures WalkLbas(d, v, chain[0], 0) == FlatLbas(v, Visited(chain))
  {
    hide NextCluster, WalkLbas, FlatLbas, FatEntry, LinkedAt, FollowedAt, Visited;
    if |Reach(chain)| >= MAX_CLUSTER_STEPS {
      WalkIsCut(d, v, chain);
    } else {
      WalkThroughChain(d, v, chain, 0);
      VisitedMarks(v, chain);
    }
  }

  lemma VisitedMarks(v: Volume, chain: seq<U32>)
    requires chain != [] && DataClusters(chain) && |Reach(chain)| < MAX_CLUSTER_STEPS
    requires Reach(chain)[|Reach(chain)| - 1] > LAST_FOLLOWED
    ensures FlatLbas(v, Visited(chain)) ==
            FlatLbas(v, Reach(chain)) + FlatLbas(v, BadMarks(MAX_CLUSTER_STEPS - |Reach(chain)|))
  {
    hide FlatLbas, Reach;
    var r := Reach(chain);
    var marks := BadMarks(MAX_CLUSTER_STEPS - |r|);
    ReachIsPrefix(chain);
    assert Visited(chain) == r + marks;
    FlatLbasConcat(v, r, marks);
  }

  lemma ReachIsPrefix(chain: seq<U32>)
    ensures Reach(chain) <= chain && (chain != [] ==> Reach(chain) != [])
    ensures Reach(chain) == chain || Reach(chain)[|Reach(chain)| - 1] > LAST_FOLLOWED
  {
  }

  lemma WalkIsCut(d: Disk, v: Volume, chain: seq<U32>)
    requires Mountable(v) && Linked(d, v, chain) && |Reach(chain)| >= MAX_CLUSTER_STEPS
    ensures WalkLbas(d, v, chain[0], 0) == FlatLbas(v, Visited(chain))
  {
    hide NextCluster, WalkLbas, FlatLbas, FatEntry, LinkedAt, FollowedAt, Reach;
    ReachIsPrefix(chain);
    var cut := chain[..MAX_CLUSTER_STEPS];
    assert Visited(chain) == cut;
    ReachIsFollowed(d, v, chain, MAX_CLUSTER_STEPS);
    WalkThroughFollowed(d, v, cut, 0);
    WalkUnfolds(d, v, NextCluster(d, v, cut[|cut| - 1]), |cut|);
    assert FlatLbas(v, cut) + [] == FlatLbas(v, cut);
  }

  // ---- Files ----

  /** The sectors of these clusters can all be read. */
  predicate Readable(d: Disk, v: Volume, chain: seq<U32>)
  {
    forall i :: 0 <= i < |chain| ==> chain[i] >= 2 && AllReadable(d, ClusterLbas(v, chain[i], 0))
  }

  /** The data of a chain: its clusters' bytes one after the other. */
  function ChainBytes(d: Disk, v: Volume, chain: seq<U32>): seq<Byte>
    requires Readable(d, v, chain)
  {
    if chain == [] then [] else SectorBytes(d, ClusterLbas(v, chain[0], 0)) + ChainBytes(d, v, chain[1..])
  }

  lemma {:induction false} SectorBytesConcat(d: Disk, a: seq<U32>, b: seq<U32>)
    requires AllReadable(d, a) && AllReadable(d, b)
    ensures AllReadable(d, a + b) && SectorBytes(d, a + b) == SectorBytes(d, a) + SectorBytes(d, b)
    decreases |b|
  {
    if b == [] {
      assert a + b == a;
    } else {
      var front, last := b[..|b| - 1], b[|b| - 1];
      SectorBytesConcat(d, a, front);
      assert (a + b)[..|a + b| - 1] == a + front && (a + b)[|a + b| - 1] == last;
    }
  }

  lemma {:induction false} ChainBytesAreFlat(d: Disk, v: Volume, chain: seq<U32>)
    requires Readable(d, v, chain)
    ensures AllReadable(d, FlatLbas(v, chain))
    ensures SectorBytes(d, FlatLbas(v, chain)) == ChainBytes(d, v, chain)
  {
    if chain != [] {
      ChainBytesAreFlat(d, v, chain[1..]);
      SectorBytesConcat(d, ClusterLbas(v, chain[0], 0), FlatLbas(v, chain[1..]));
    }
  }

  lemma FlatPrefix(d: Disk, flat: seq<U32>, lbas: seq<U32>, size: nat)
    requires flat <= lbas && AllReadable(d, flat) && size <= |SectorBytes(d, flat)|
    ensures FlatBytes(d, lbas, size) == Some(SectorBytes(d, flat)[..size])
  {
    var n := SectorsNeeded(size);
    assert n <= |flat| && lbas[..n] == flat[..n];
    var front, back := flat[..n], flat[n..];
    assert flat == front + back;
    assert AllReadable(d, front) && AllReadable(d, back);
    SectorBytesConcat(d, front, back);
    assert (SectorBytes(d, front) + SectorBytes(d, back))[..size] == SectorBytes(d, front)[..size];
  }

  // A file is read in full exactly when the clusters visited hold its size.
  lemma GoodFileIsVisited(d: Disk, v: Volume, chain: seq<U32>, size: nat)
    requires Mountable(v) && GoodChain(d, v, chain) && Readable(d, v, Visited(chain))
    ensures var visited := ChainBytes(d, v, Visited(chain));
            FileBytes(d, v, chain[0], size) == if size <= |visited| then Some(visited[..size]) else None
  {
    hide WalkLbas, ChainBytes, FlatLbas, Visited, FatEntry, LinkedAt;
    var flat := FlatLbas(v, Visited(chain));
    WalkFollowsChain(d, v, chain);
    ChainBytesAreFlat(d, v, Visited(chain));
    if size <= |SectorBytes(d, flat)| {
      FlatPrefix(d, flat, flat, size);
    } else {
      TooLong(d, flat, size);
    }
  }

  lemma TooLong(d: Disk, flat: seq<U32>, size: nat)
    requires AllReadable(d, flat) && size > |SectorBytes(d, flat)|
    ensures FlatBytes(d, flat, size) == None
  {
  }

  /** How many bytes `n` clusters hold. */
  function Capacity(v: Volume, n: nat): nat
  {
    SECTOR_SIZE * v.sectorsPerCluster * n
  }

  lemma {:induction false} ChainLength(d: Disk, v: Volume, chain: seq<U32>)
    requires Readable(d, v, chain)
    ensures |ChainBytes(d, v, chain)| == Capacity(v, |chain|)
  {
    hide ClusterLbas;
    if chain != [] {
      ClusterSize(v, chain[0], 0);
      ChainLength(d, v, chain[1..]);
      assert Capacity(v, |chain|) == SECTOR_SIZE * v.sectorsPerCluster + Capacity(v, |chain| - 1);
    }
  }

  lemma ReadablePrefix(d: Disk, v: Volume, chain: seq<U32>, front: seq<U32>)
    requires Readable(d, v, chain) && front <= chain
    ensures Readable(d, v, front)
    ensures FlatLbas(v, front) <= FlatLbas(v, chain)
  {
    hide ClusterLbas, FlatLbas;
    assert forall i :: 0 <= i < |front| ==> front[i] == chain[i];
    assert chain == front + chain[|front|..];
    FlatLbasConcat(v, front, chain[|front|..]);
  }

  lemma WalkReaches(d: Disk, v: Volume, chain: seq<U32>)
    requires Mountable(v) && Linked(d, v, chain)
    ensures FlatLbas(v, Cut(Reach(chain))) <= WalkLbas(d, v, chain[0], 0)
  {
    hide NextCluster, WalkLbas, FlatLbas, FatEntry, LinkedAt;
    if |Reach(chain)| >= MAX_CLUSTER_STEPS {
      WalkIsCut(d, v, chain);
      assert Visited(chain) == Cut(Reach(chain));
    } else {
      WalkThroughChain(d, v, chain, 0);
      assert Cut(Reach(chain)) == Reach(chain);
    }
  }

  // A file on a readable chain of the FAT is the concatenation of the chain's
  // clusters cut to its size, as long as the clusters reached hold that much.
  // If they do not, the reader goes on at the bad mark's sectors; and where
  // those cannot be read, the file is read if and only if it fits what is reached.
  lemma FileIsConcatenatedChain(d: Disk, v: Volume, chain: seq<U32>, size: nat)
    requires Mountable(v) && Linked(d, v, chain) && Readable(d, v, chain) && size <= Capacity(v, |chain|)
    ensures |ChainBytes(d, v, chain)| == Capacity(v, |chain|)
    ensures var fits := size <= Capacity(v, |Cut(Reach(chain))|);
            var file := FileBytes(d, v, chain[0], size);
            && (fits ==> file == Some(ChainBytes(d, v, chain)[..size]))
            && (!fits ==> file == FlatBytes(d, FlatLbas(v, Visited(chain)), size))
            && (ClusterLba(v, BAD_CLUSTER, 0) !in d ==> (file.Some? <==> fits))
  {
    hide WalkLbas, ChainBytes, FlatLbas, Visited, Reach, FatEntry, LinkedAt, Capacity;
    var reached := Cut(Reach(chain));
    ReachIsPrefix(chain);
    ChainLength(d, v, chain);
    ReadablePrefix(d, v, chain, reached);
    ChainLength(d, v, reached);
    ChainBytesAreFlat(d, v, chain);
    ChainBytesAreFlat(d, v, reached);
    if size <= Capacity(v, |reached|) {
      WalkReaches(d, v, chain);
      FlatPrefix(d, FlatLbas(v, reached), WalkLbas(d, v, chain[0], 0), size);
      FlatPrefix(d, FlatLbas(v, reached), FlatLbas(v, chain), size);
      FlatPrefix(d, FlatLbas(v, chain), FlatLbas(v, chain), size);
    } else {
      ShortReachStops(v, chain, size);
      WalkStops(d, v, chain);
      if ClusterLba(v, BAD_CLUSTER, 0) !in d {
        BadMarkStops(d, v, chain, size);
      }
    }
  }

  lemma ShortReachStops(v: Volume, chain: seq<U32>, size: nat)
    requires chain != [] && Capacity(v, |Cut(Reach(chain))|) < size <= Capacity(v, |chain|)
    ensures Stopped(chain)
  {
    hide Capacity;
    assert !Stopped(chain) ==> Cut(Reach(chain)) == chain;
  }

  // More than the clusters reached hold cannot be read past an unreadable bad mark.
  lemma BadMarkStops(d: Disk, v: Volume, chain: seq<U32>, size: nat)
    requires Mountable(v) && Linked(d, v, chain) && Stopped(chain) && Readable(d, v, Cut(Reach(chain)))
    requires size > Capacity(v, |Cut(Reach(chain))|) && ClusterLba(v, BAD_CLUSTER, 0) !in d
    ensures FlatBytes(d, FlatLbas(v, Visited(chain)), size) == None
  {
    hide FlatLbas, Reach, FatEntry, LinkedAt, Capacity, ClusterLba, ChainBytes, FlatBytes, Visited, BadMarks,
         SectorBytes;
    var reached := Cut(Reach(chain));
    var flat := FlatLbas(v, reached);
    ChainLength(d, v, reached);
    ChainBytesAreFlat(d, v, reached);
    if |Reach(chain)| >= MAX_CLUSTER_STEPS {
      CutVisits(chain);
      TooLong(d, flat, size);
    } else {
      ReachIsPrefix(chain);
      assert reached == Reach(chain);
      VisitedMarks(v, chain);
      var n := MAX_CLUSTER_STEPS - |reached|;
      FirstMark(v, n);
      Unreadable(d, flat, FlatLbas(v, BadMarks(n)), size);
    }
  }

  lemma CutVisits(chain: seq<U32>)
    requires chain != [] && |Reach(chain)| >= MAX_CLUSTER_STEPS
    ensures Visited(chain) == Cut(Reach(chain))
  {
  }

  lemma FirstMark(v: Volume, n: nat)
    requires Mountable(v) && n > 0
    ensures FlatLbas(v, BadMarks(n)) != [] && FlatLbas(v, BadMarks(n))[0] == ClusterLba(v, BAD_CLUSTER, 0)
  {
  }

  lemma Unreadable(d: Disk, flat: seq<U32>, more: seq<U32>, size: nat)
    requires AllReadable(d, flat) && size > |SectorBytes(d, flat)| && more != [] && more[0] !in d
    ensures FlatBytes(d, flat + more, size) == None
  {
    var n := SectorsNeeded(size);
    assert n > |flat|;
    if n <= |flat + more| {
      assert (flat + more)[..n][|flat|] == more[0];
    }
  }

  // ---- A chain the reader does not follow ----

  // One sector to a cluster, a FAT from sector 1 on, data from sector 0x80002 on.
  const WIDE_VOLUME := Volume(0, SECTOR_SIZE, 1, 1, 1, 0x8_0001, 0x8_0002, 2)
  const WIDE_CHAIN: seq<U32> := [0x400_0000, 3]

  /** A sector of zeros but for one word at `offset`. */
  function WordAt(offset: nat, word: seq<Byte>): Sector
    requires |word| == 4 && offset + 4 <= SECTOR_SIZE
  {
    seq(offset, i => 0) + word + seq(SECTOR_SIZE - offset - 4, i => 0)
  }

  /** Cluster 0x04000000 holds `a` and is linked to cluster 3, which holds `b`; `x` is at the bad mark's address. */
  function WideDisk(a: Sector, b: Sector, x: Option<Sector>): Disk
  {
    var d := map[1 := WordAt(12, [0xff, 0xff, 0xff, 0x0f]), 0x8_0001 := WordAt(0, [3, 0, 0, 0]),
                 0x8_0003 := b, 0x408_0000 := a];
    if x.Some? then d[0x1007_fff7 := x.value] else d
  }

  lemma WideEntries(a: Sector, b: Sector, x: Option<Sector>)
    ensures GoodChain(WideDisk(a, b, x), WIDE_VOLUME, WIDE_CHAIN)
  {
    var d := WideDisk(a, b, x);
    QuotientIs(0x400_0000, 128, 0x8_0000, 0);
    assert FatSector(WIDE_VOLUME, 0x400_0000) == 0x8_0001 && FatSector(WIDE_VOLUME, 3) == 1;
    WordReads(0, [3, 0, 0, 0]);
    WordReads(12, [0xff, 0xff, 0xff, 0x0f]);
    assert FatEntry(d, WIDE_VOLUME, 0x400_0000) == Some(3);
    assert FatEntry(d, WIDE_VOLUME, 3) == Some(0xfff_ffff);
    assert LinkedAt(d, WIDE_VOLUME, WIDE_CHAIN, 0);
  }

  lemma WordReads(offset: nat, word: seq<Byte>)
    requires |word| == 4 && offset + 4 <= SECTOR_SIZE
    ensures Read32(WordAt(offset, word), offset) == Read32(word, 0)
  {
    var s := WordAt(offset, word);
    assert s[offset] == word[0] && s[offset + 1] == word[1] && s[offset + 2] == word[2] && s[offset + 3] == word[3];
  }

  lemma OneSectorClusters(cluster: U32)
    requires cluster >= 2
    ensures ClusterLbas(WIDE_VOLUME, cluster, 0) == [(0x8_0000 + cluster) % LIMIT32]
  {
    assert ClusterLba(WIDE_VOLUME, cluster, 0) == (0x8_0000 + cluster) % LIMIT32;
    assert ClusterLbas(WIDE_VOLUME, cluster, 1) == [];
  }

  lemma OneSector(d: Disk, lba: U32)
    requires lba in d
    ensures AllReadable(d, [lba]) && SectorBytes(d, [lba]) == d[lba]
  {
    assert [lba][..0] == [] && SectorBytes(d, []) == [];
    assert SectorBytes(d, [lba]) == [] + d[lba];
  }

  lemma TwoSectors(d: Disk, lbas: seq<U32>)
    requires |lbas| >= 2
    ensures FlatBytes(d, lbas, 1024) ==
            if lbas[0] in d && lbas[1] in d then
              var first: seq<Byte> := d[lbas[0]];
              Some(first + d[lbas[1]])
            else None
  {
    var n := lbas[..2];
    assert SectorsNeeded(1024) == 2;
    if lbas[0] in d && lbas[1] in d {
      assert n == [lbas[0]] + [lbas[1]];
      OneSector(d, lbas[0]);
      OneSector(d, lbas[1]);
      SectorBytesConcat(d, [lbas[0]], [lbas[1]]);
      var first: seq<Byte> := d[lbas[0]];
      assert (first + d[lbas[1]])[..1024] == first + d[lbas[1]];
    } else {
      assert n[0] == lbas[0] && n[1] == lbas[1];
    }
  }

  lemma WideChainBytes(a: Sector, b: Sector, x: Option<Sector>)
    ensures var d := WideDisk(a, b, x);
            Readable(d, WIDE_VOLUME, WIDE_CHAIN) && ChainBytes(d, WIDE_VOLUME, WIDE_CHAIN) == a + b
  {
    hide SectorBytes, AllReadable, ClusterLbas;
    var d := WideDisk(a, b, x);
    OneSectorClusters(0x400_0000);
    OneSectorClusters(3);
    OneSector(d, 0x408_0000);
    OneSector(d, 0x8_0003);
    assert WIDE_CHAIN[1..] == [3] && [3][1..] == [];
    assert ChainBytes(d, WIDE_VOLUME, [3]) == b + [] == b;
  }

  // The chain 0x04000000 -> 3 is in good order and both its clusters are
  // readable. Its second half is not read from cluster 3 but from the bad
  // mark's address, and the read fails if nothing can be read there.
  lemma WideChainMisread(a: Sector, b: Sector, x: Option<Sector>)
    ensures var d := WideDisk(a, b, x);
            && GoodChain(d, WIDE_VOLUME, WIDE_CHAIN) && Readable(d, WIDE_VOLUME, WIDE_CHAIN)
            && ChainBytes(d, WIDE_VOLUME, WIDE_CHAIN) == a + b
            && FileBytes(d, WIDE_VOLUME, 0x400_0000, 1024) ==
               match x case None => None case Some(s) => Some(a + s)
  {
    hide WalkLbas, NextCluster, ClusterLbas, SectorBytes, FlatBytes, ChainBytes, GoodChain, Readable;
    var d, v := WideDisk(a, b, x), WIDE_VOLUME;
    WideEntries(a, b, x);
    WideChainBytes(a, b, x);
    OneSectorClusters(0x400_0000);
    OneSectorClusters(BAD_CLUSTER);
    NextClusterReadsFat(d, v, 0x400_0000);
    WalkUnfolds(d, v, 0x400_0000, 0);
    WalkUnfolds(d, v, BAD_CLUSTER, 1);
    TwoSectors(d, WalkLbas(d, v, 0x400_0000, 0));
  }
}
