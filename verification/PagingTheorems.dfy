// The guarantees of the paging code over whole runs.
module PagingTheorems {
  import opened Wrappers
  import opened Bits
  import opened Frames
  import opened PageAllocator
  import opened PageTables
  import opened PagingInvariant
  import opened PagingRuns

  // After a successful initialisation and any operations, the walk of each
  // tree is the identity below 1 GiB, the frame last given for each mapped
  // user page, and a fault everywhere else.
  lemma TranslationsAfterRun(mem: Memory, free: seq<nat>, cr3: nat, ops: seq<Op>, va: Word)
    requires Allocatable(free) && cr3 < FRAME_COUNT && Init(mem, free, cr3).ready
    ensures |free| >= 3
    ensures Inv(Init(mem, free, cr3), Views(map[], map[]))
    ensures var (m, v) := Run(Init(mem, free, cr3), Views(map[], map[]), ops);
            && Sane(m)
            && Walk(m.mem, m.kernel.pml4, va) == Expected(v.kernel, va)
            && (m.spaceReady ==> Walk(m.mem, m.space.pml4, va) == Expected(v.space, va))
            && m.mem[m.identity] == IdentityDirectory()
            && m.tablePages == |TableFrames(m)|
  {
    hide Inv, Init, Run, Walk, Linked, Shows, TableFrames;
    InitHolds(mem, free, cr3);
    var (m, v) := Run(Init(mem, free, cr3), Views(map[], map[]), ops);
    InvIsSane(m, v);
    TranslationsInState(m, v, va);
    TablePagesAreReachable(m, v);
  }

  lemma TranslationsInState(m: Machine, v: Views, va: Word)
    requires Inv(m, v) && Sane(m)
    ensures Walk(m.mem, m.kernel.pml4, va) == Expected(v.kernel, va)
    ensures m.spaceReady ==> Walk(m.mem, m.space.pml4, va) == Expected(v.space, va)
    ensures m.mem[m.identity] == IdentityDirectory()
  {
    hide Walk;
    WalkIsExpected(m.mem, m.kernel, m.identity, v.kernel, va);
    if m.spaceReady {
      WalkIsExpected(m.mem, m.space, m.identity, v.space, va);
    }
  }

  // A memory map boots the paging code with frames that meet its needs if and
  // only if it records no page for two entries; one whose usable entries do
  // not overlap does.
  lemma BootFramesAllocatable(entries: seq<MapEntry>, kernelEnd: Word)
    requires KERNEL_BASE <= kernelEnd
    ensures Allocatable(AllFrames(InitialRegions(entries, kernelEnd))) <==> RecordedOnce(entries, kernelEnd)
    ensures EntriesDisjoint(entries) ==> Allocatable(AllFrames(InitialRegions(entries, kernelEnd)))
  {
    hide InitialRegions, AllFrames, RecordedOnce;
    var rs := InitialRegions(entries, kernelEnd);
    AllocationRepeats(entries, kernelEnd);
    InitialWellFormed(entries, kernelEnd);
    forall i | 0 <= i < |AllFrames(rs)| ensures 0 < AllFrames(rs)[i] < FRAME_COUNT {
      FramesAreReal(rs, kernelEnd, AllFrames(rs)[i]);
    }
    if EntriesDisjoint(entries) {
      AllocationOrder(entries, kernelEnd);
    }
  }

  /** Where an operation that maps a page aims: tree, page and physical address. */
  function Target(m: Machine, op: Op): Option<(Side, Word, Word)>
    requires Sane(m)
  {
    match op
    case MapKernel(va, pa) => Some((Kernel, va, pa))
    case MapSpace(va, pa) => Some((Space, va, pa))
    case UserPage => if m.free == [] then None else Some((Kernel, m.nextUserPage, m.free[0] * PAGE_SIZE))
    case _ => None
  }

  /** The operation maps the page that holds `va` in this tree. */
  predicate Retargets(m: Machine, op: Op, side: Side, va: Word)
    requires Sane(m)
  {
    var t := Target(m, op);
    t.Some? && t.value.0 == side && t.value.1 <= va < t.value.1 + PAGE_SIZE
  }

  // One operation on any reachable state, seen through the walk of one tree.
  // A successful mapping retargets the page it names in the tree it names; a
  // mapping into the other tree, a failed one and every other operation leave
  // every translation of the tree, and the identity directory, as they were.
  lemma StepTranslations(m: Machine, v: Views, op: Op, side: Side, va: Word)
    requires Inv(m, v) && Sane(m) && Exists(m, side)
    ensures var (m', ok) := Step(m, op);
            && Sane(m') && Exists(m', side)
            && m'.identity == m.identity && m'.mem[m.identity] == m.mem[m.identity]
            && Walk(m'.mem, TreeOf(m', side).pml4, va) ==
               if ok && Retargets(m, op, side, va)
               then To(Target(m, op).value.2 % PHYSICAL_LIMIT + va % PAGE_SIZE)
               else Walk(m.mem, TreeOf(m, side).pml4, va)
  {
    hide Walk, Linked, Shows, Step, Sane;
    var (m', ok) := Step(m, op);
    StepKeeps(m, v, op);
    StepShape(m, v, op);
    var v' := if ok then ViewStep(m, v, op) else v;
    SharedDirectory(m.mem, m.kernel, m.identity, v.kernel);
    SharedDirectory(m'.mem, m'.kernel, m'.identity, v'.kernel);
    WalkIsExpected(m.mem, TreeOf(m, side), m.identity, ViewOf(v, side), va);
    WalkIsExpected(m'.mem, TreeOf(m', side), m'.identity, ViewOf(v', side), va);
    if ok && Target(m, op).Some? {
      StepAligned(m, v, op);
      SamePage(Target(m, op).value.1, va);
    }
  }

  lemma StepAligned(m: Machine, v: Views, op: Op)
    requires Inv(m, v) && Sane(m) && Target(m, op).Some? && Step(m, op).1
    ensures Target(m, op).value.1 % PAGE_SIZE == 0 && InWindow(Target(m, op).value.1)
  {
  }

  lemma SamePage(page: Word, va: Word)
    requires page % PAGE_SIZE == 0 && InWindow(page)
    ensures page <= va < page + PAGE_SIZE <==> InWindow(va) && PageIndex(va) == PageIndex(page)
  {
  }

  // Roots and the identity directory stay where they are.
  lemma StepShape(m: Machine, v: Views, op: Op)
    requires Inv(m, v) && Sane(m)
    ensures var m' := Step(m, op).0;
            && m'.identity == m.identity && m'.kernel.pml4 == m.kernel.pml4 && m'.kernel.pdpt == m.kernel.pdpt
            && (m.spaceReady ==> m'.spaceReady && m'.space.pml4 == m.space.pml4)
  {
    hide Inv, MapPage;
    match op
    case MapKernel(va, pa) => MapTouchesOnlyTables(m, v, Kernel, va, pa, 0);
    case MapSpace(va, pa) =>
      if m.spaceReady {
        MapTouchesOnlyTables(m, v, Space, va, pa, 0);
      }
    case UserPage =>
      AllocKeeps(m, v);
      var (m1, f) := AllocFrame(m);
      if f != 0 {
        MapTouchesOnlyTables(m1, v, Kernel, m1.nextUserPage, f * PAGE_SIZE, 0);
      }
    case _ =>
  }

  // ---- Counting table frames ----

  /** `f` is the table at this level or is linked below it. */
  ghost predicate TableAt(mem: Memory, table: nat, level: nat, f: nat)
    requires table < FRAME_COUNT
    decreases level
  {
    f == table || (level > 1 && exists i :: 0 <= i < ENTRIES && LinksTo(mem, table, i, level, f))
  }

  ghost predicate LinksTo(mem: Memory, table: nat, i: nat, level: nat, f: nat)
    requires table < FRAME_COUNT && i < ENTRIES && level > 1
    decreases level, 0
  {
    var e := mem[table][i];
    Present(e) && !Large(e) && EntryFrame(e) < FRAME_COUNT && TableAt(mem, EntryFrame(e), level - 1, f)
  }

  /** The frames that hold page tables of either tree. */
  ghost function TableFrames(m: Machine): set<nat>
    requires Sane(m)
  {
    set f | 0 <= f < FRAME_COUNT &&
            (TableAt(m.mem, m.kernel.pml4, 4, f) || (m.spaceReady && TableAt(m.mem, m.space.pml4, 4, f)))
  }

  predicate InTree(t: Tree, identity: nat, f: nat)
  {
    f == t.pml4 || BelowPml4(t, identity, f)
  }

  predicate BelowPml4(t: Tree, identity: nat, f: nat)
  {
    f == t.pdpt || f == identity || (f != 0 && (f == t.directory || f == t.table))
  }

  lemma BelowIdentity(mem: Memory, t: Tree, identity: nat, f: nat)
    requires Linked(mem, t, identity)
    ensures TableAt(mem, identity, 2, f) <==> f == identity
  {
    forall i | 0 <= i < ENTRIES ensures !LinksTo(mem, identity, i, 2, f) {
      LargeEntryReads(i);
    }
  }

  lemma BelowDirectory(mem: Memory, t: Tree, identity: nat, f: nat)
    requires Linked(mem, t, identity) && t.directory != 0
    ensures TableAt(mem, t.directory, 2, f) <==> f == t.directory || (t.table != 0 && f == t.table)
  {
    LinkReads(t.table);
    assert LinksTo(mem, t.directory, 0, 2, f) <==> t.table != 0 && f == t.table;
    forall i | 1 <= i < ENTRIES ensures !LinksTo(mem, t.directory, i, 2, f) {
      assert mem[t.directory][i] == 0;
    }
  }

  lemma BelowPointers(mem: Memory, t: Tree, identity: nat, f: nat)
    requires Linked(mem, t, identity)
    ensures TableAt(mem, t.pdpt, 3, f) <==> BelowPml4(t, identity, f)
  {
    LinkReads(identity);
    LinkReads(t.directory);
    BelowIdentity(mem, t, identity, f);
    assert LinksTo(mem, t.pdpt, 0, 3, f) <==> f == identity;
    if t.directory != 0 {
      BelowDirectory(mem, t, identity, f);
    }
    assert LinksTo(mem, t.pdpt, 1, 3, f) <==> t.directory != 0 && TableAt(mem, t.directory, 2, f);
    forall i | 2 <= i < ENTRIES ensures !LinksTo(mem, t.pdpt, i, 3, f) {
      assert mem[t.pdpt][i] == 0;
    }
  }

  lemma BelowRoot(mem: Memory, t: Tree, identity: nat, f: nat)
    requires Linked(mem, t, identity)
    ensures TableAt(mem, t.pml4, 4, f) <==> InTree(t, identity, f)
  {
    LinkReads(t.pdpt);
    BelowPointers(mem, t, identity, f);
    assert LinksTo(mem, t.pml4, 0, 4, f) <==> TableAt(mem, t.pdpt, 3, f);
    forall i | 1 <= i < ENTRIES ensures !LinksTo(mem, t.pml4, i, 4, f) {
      assert mem[t.pml4][i] == 0;
    }
  }

  function NonNull(ps: seq<nat>): (s: set<nat>)
    ensures forall f :: f in s <==> f != 0 && f in ps
  {
    set f | f in ps && f != 0
  }

  lemma {:induction false} CountsNonNull(ps: seq<nat>)
    requires forall i, j :: 0 <= i < j < |ps| && ps[i] == ps[j] ==> ps[i] == 0
    ensures NonNullCount(ps) == |NonNull(ps)|
  {
    if ps != [] {
      var front, last := ps[..|ps| - 1], ps[|ps| - 1];
      CountsNonNull(front);
      assert ps == front + [last];
      if last == 0 {
        assert NonNull(ps) == NonNull(front);
      } else {
        assert last !in front;
        assert NonNull(ps) == NonNull(front) + {last};
      }
    }
  }

  // `table_pages` is the number of distinct table frames reachable from the
  // two roots, with the shared identity directory counted once.
  lemma TablePagesAreReachable(m: Machine, v: Views)
    requires Inv(m, v) && Sane(m)
    ensures m.tablePages == |TableFrames(m)|
  {
    hide TableAt, LinksTo, NonNullCount, Shows, Unaliased;
    PointersDiffer(m, v);
    CountsNonNull(Pointers(m));
    Slots(m);
    forall f | 0 <= f < FRAME_COUNT
      ensures f in TableFrames(m) <==> f in NonNull(Pointers(m))
    {
      BelowRoot(m.mem, m.kernel, m.identity, f);
      if m.spaceReady {
        BelowRoot(m.mem, m.space, m.identity, f);
      }
    }
    assert TableFrames(m) == NonNull(Pointers(m));
  }

  lemma PointersDiffer(m: Machine, v: Views)
    requires Inv(m, v)
    ensures m.tablePages == NonNullCount(Pointers(m)) && forall f :: f in Pointers(m) ==> f < FRAME_COUNT
    ensures var ps := Pointers(m);
            forall i, j :: 0 <= i < j < |ps| && ps[i] == ps[j] ==> ps[i] == 0
  {
    hide TreeHolds, Pointers, NonNullCount;
  }

  // ---- The user page allocator and the active root ----

  // A page from AllocUserPage is mapped in the kernel tree. It translates
  // under the active root exactly when that root is the kernel's, or when the
  // address space happens to map the same page to the same frame.
  lemma UserPageUnderActiveRoot(m: Machine, v: Views)
    requires Inv(m, v) && Sane(m) && AllocUserPage(m).1 != 0
    ensures var (m', va) := AllocUserPage(m);
            && m'.cr3 < FRAME_COUNT && m.free != [] && m'.mem[m.free[0]] == ZeroFrame()
            && (Walk(m'.mem, m'.cr3, va) == To(m.free[0] * PAGE_SIZE) <==>
                || m.cr3 == m.kernel.pml4
                || (PageIndex(va) in v.space && v.space[PageIndex(va)] % PHYSICAL_LIMIT == m.free[0] * PAGE_SIZE))
  {
    hide Walk, Linked, Shows, AllocUserPage;
    var (m', va) := AllocUserPage(m);
    UserPageKeeps(m, v);
    UserPageShape(m, v);
    var v' := ViewStep(m, v, UserPage);
    InvIsSane(m', v');
    WalkIsExpected(m'.mem, m'.kernel, m'.identity, v'.kernel, va);
    if m'.spaceReady {
      WalkIsExpected(m'.mem, m'.space, m'.identity, v'.space, va);
    }
  }

  lemma UserPageShape(m: Machine, v: Views)
    requires Inv(m, v) && Sane(m) && AllocUserPage(m).1 != 0
    ensures var (m', va) := AllocUserPage(m);
            && m.free != [] && InWindow(va) && va % PAGE_SIZE == 0 && va == m.nextUserPage
            && m'.cr3 == m.cr3 && m'.kernel.pml4 == m.kernel.pml4 && m'.space.pml4 == m.space.pml4
            && m'.spaceReady == m.spaceReady && m'.mem[m.free[0]] == ZeroFrame()
  {
    hide Inv, MapPage;
    AllocKeeps(m, v);
    var (m1, f) := AllocFrame(m);
    MapTouchesOnlyTables(m1, v, Kernel, m1.nextUserPage, f * PAGE_SIZE, f);
    FreshFrame(m, v);
    MapKeeps(m1, v, Kernel, m1.nextUserPage, f * PAGE_SIZE);
  }

  lemma FreshFrame(m: Machine, v: Views)
    requires Inv(m, v) && m.free != []
    ensures var f := m.free[0];
            f < FRAME_COUNT && f !in Pointers(m) && f !in m.free[1..]
  {
  }
}
