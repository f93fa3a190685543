// Runs of page-table operations: table frames never alias, every step moves
// the abstract views exactly as it should, and so the translations of both
// trees are known after any sequence of operations, failed ones included.
module PagingRuns {
  import opened Bits
  import opened Frames
  import opened PageTables
  import opened PagingInvariant

  // ---- No two tables share a frame ----

  /** Non-null pointers are pairwise different and none of their frames is free. */
  predicate Unaliased(ps: seq<nat>, free: seq<nat>)
  {
    && (forall i, j :: 0 <= i < j < |ps| && ps[i] == ps[j] ==> ps[i] == 0)
    && (forall i :: 0 <= i < |ps| ==> ps[i] < FRAME_COUNT && ps[i] !in free)
    && FramesInRange(free)
    && (forall i, j :: 0 <= i < j < |free| ==> free[i] != free[j])
  }

  function NonNullCount(ps: seq<nat>): nat
  {
    if ps == [] then 0 else NonNullCount(ps[..|ps| - 1]) + if ps[|ps| - 1] == 0 then 0 else 1
  }

  lemma {:induction false} FillSlotCounts(ps: seq<nat>, k: nat, f: nat)
    requires k < |ps| && ps[k] == 0 && f != 0
    ensures NonNullCount(ps[k := f]) == NonNullCount(ps) + 1
  {
    var n := |ps| - 1;
    if k == n {
      assert ps[k := f][..n] == ps[..n];
    } else {
      assert ps[k := f][..n] == ps[..n][k := f];
      FillSlotCounts(ps[..n], k, f);
    }
  }

  // A fresh frame put into an empty slot aliases nothing.
  lemma FillSlot(ps: seq<nat>, k: nat, free: seq<nat>)
    requires Unaliased(ps, free) && free != [] && k < |ps| && ps[k] == 0
    ensures Unaliased(ps[k := free[0]], free[1..])
    ensures NonNullCount(ps[k := free[0]]) == NonNullCount(ps) + 1
  {
    var f := free[0];
    FillSlotCounts(ps, k, f);
    assert forall g :: g in free[1..] ==> g in free;
    assert f !in free[1..];
    assert forall i :: 0 <= i < |ps| ==> ps[i] != f;
  }

  lemma DropFree(ps: seq<nat>, free: seq<nat>)
    requires Unaliased(ps, free) && free != []
    ensures Unaliased(ps, free[1..])
  {
  }

  // ---- The invariant ----

  ghost predicate Inv(m: Machine, v: Views)
  {
    && m.ready
    && TreeHolds(m.mem, m.kernel, m.identity, v.kernel)
    && (if m.spaceReady then TreeHolds(m.mem, m.space, m.identity, v.space)
        else m.space == NO_TREE && v.space == map[])
    && Unaliased(Pointers(m), m.free)
    && m.tablePages == NonNullCount(Pointers(m))
    && USER_BASE <= m.nextUserPage <= USER_BASE + USER_WINDOW_SIZE
    && m.nextUserPage % PAGE_SIZE == 0
    && (m.cr3 == m.kernel.pml4 || (m.spaceReady && m.cr3 == m.space.pml4))
  }

  lemma InvIsSane(m: Machine, v: Views)
    requires Inv(m, v)
    ensures Sane(m)
  {
  }

  // A tree holds as long as its own frames are untouched.
  lemma Reframe(mem: Memory, mem': Memory, t: Tree, identity: nat, view: View)
    requires TreeHolds(mem, t, identity, view)
    requires mem'[t.pml4] == mem[t.pml4] && mem'[t.pdpt] == mem[t.pdpt] && mem'[identity] == mem[identity]
    requires t.directory != 0 ==> mem'[t.directory] == mem[t.directory]
    requires t.table != 0 ==> mem'[t.table] == mem[t.table]
    ensures TreeHolds(mem', t, identity, view)
  {
  }

  lemma Slots(m: Machine)
    ensures var ps := Pointers(m);
            && ps[0] == m.kernel.pml4 && ps[1] == m.kernel.pdpt && ps[2] == m.identity
            && ps[3] == m.kernel.directory && ps[4] == m.kernel.table
            && ps[5] == m.space.pml4 && ps[6] == m.space.pdpt
            && ps[7] == m.space.directory && ps[8] == m.space.table
  {
  }

  /** `f` is none of the frames of the tree. */
  predicate Foreign(t: Tree, identity: nat, f: nat)
  {
    f != t.pml4 && f != t.pdpt && f != identity && f != t.directory && f != t.table
  }

  lemma FreeIsForeign(m: Machine, f: nat)
    requires f !in Pointers(m)
    ensures Foreign(m.kernel, m.identity, f) && Foreign(m.space, m.identity, f)
  {
  }

  lemma AllocKeeps(m: Machine, v: Views)
    requires Inv(m, v)
    ensures Inv(AllocFrame(m).0, v) && Sane(AllocFrame(m).0)
  {
    InvIsSane(m, v);
    if m.free != [] {
      var m' := AllocFrame(m).0;
      FreeIsForeign(m, m.free[0]);
      Reframe(m.mem, m'.mem, m.kernel, m.identity, v.kernel);
      if m.spaceReady {
        Reframe(m.mem, m'.mem, m.space, m.identity, v.space);
      }
      DropFree(Pointers(m), m.free);
      InvIsSane(m', v);
    }
  }

  lemma StoreKeeps(m: Machine, v: Views, f: nat, i: nat, w: Word)
    requires Inv(m, v) && f < FRAME_COUNT && i < ENTRIES && f !in Pointers(m)
    ensures Inv(m.(mem := StoreWord(m.mem, f, i, w)), v)
  {
    var mem' := StoreWord(m.mem, f, i, w);
    FreeIsForeign(m, f);
    Reframe(m.mem, mem', m.kernel, m.identity, v.kernel);
    if m.spaceReady {
      Reframe(m.mem, mem', m.space, m.identity, v.space);
    }
  }

  // ---- Mapping a page ----

  function Other(side: Side): Side { if side == Kernel then Space else Kernel }

  predicate Exists(m: Machine, side: Side) { side == Space ==> m.spaceReady }

  // The two trees share the identity directory and nothing else.
  lemma TreesApart(m: Machine, v: Views, side: Side)
    requires Inv(m, v) && m.spaceReady
    ensures var t := TreeOf(m, side);
            var u := TreeOf(m, Other(side));
            && Foreign(u, m.identity, t.pdpt)
            && (t.directory != 0 ==> Foreign(u, m.identity, t.directory))
            && (t.table != 0 ==> Foreign(u, m.identity, t.table))
  {
    Slots(m);
  }

  lemma TreeDistinct(m: Machine, v: Views, side: Side)
    requires Inv(m, v) && Exists(m, side)
    ensures var t := TreeOf(m, side);
            && t.pml4 != t.pdpt && t.pml4 != m.identity && t.pdpt != m.identity
            && (t.directory != 0 ==> t.directory != t.pml4 && t.directory != t.pdpt && t.directory != m.identity)
            && (t.table != 0 ==> t.table != t.pml4 && t.table != t.pdpt && t.table != m.identity
                                 && t.table != t.directory)
  {
    Slots(m);
  }

  lemma LinkDirectory(mem: Memory, t: Tree, identity: nat, view: View, f: nat)
    requires TreeHolds(mem, t, identity, view) && t.directory == 0 && 0 < f < FRAME_COUNT
    requires Foreign(t, identity, f) && t.pml4 != t.pdpt && t.pdpt != identity
    ensures TreeHolds(StoreWord(mem[f := ZeroFrame()], t.pdpt, 1, UserEntry(f * PAGE_SIZE)),
                      t.(directory := f), identity, view)
  {
  }

  lemma LinkTable(mem: Memory, t: Tree, identity: nat, view: View, f: nat)
    requires TreeHolds(mem, t, identity, view) && t.directory != 0 && t.table == 0 && 0 < f < FRAME_COUNT
    requires Foreign(t, identity, f)
    requires t.directory != t.pml4 && t.directory != t.pdpt && t.directory != identity
    ensures TreeHolds(StoreWord(mem[f := ZeroFrame()], t.directory, 0, UserEntry(f * PAGE_SIZE)),
                      t.(table := f), identity, view)
  {
  }

  lemma SetPage(mem: Memory, t: Tree, identity: nat, view: View, page: nat, pa: Word)
    requires TreeHolds(mem, t, identity, view) && t.table != 0 && page < ENTRIES && pa % PAGE_SIZE == 0
    requires t.table != t.pml4 && t.table != t.pdpt && t.table != identity && t.table != t.directory
    ensures TreeHolds(StoreWord(mem, t.table, page, UserEntry(pa)), t, identity, view[page := pa])
  {
  }

  // Linking a fresh frame into an empty slot of one tree keeps the invariant
  // when that tree still holds and no other frame has changed.
  lemma RelinkKeeps(m: Machine, m': Machine, v: Views, side: Side, t': Tree, slot: nat, parent: nat)
    requires Inv(m, v) && Exists(m, side) && m.free != [] && slot < 9 && Pointers(m)[slot] == 0
    requires m' == WithTree(m.(mem := m'.mem, free := m.free[1..], tablePages := m.tablePages + 1), side, t')
    requires Pointers(m') == Pointers(m)[slot := m.free[0]] && t'.pml4 == TreeOf(m, side).pml4
    requires TreeHolds(m'.mem, t', m.identity, ViewOf(v, side))
    requires parent != 0 && (parent == TreeOf(m, side).pdpt || parent == TreeOf(m, side).directory)
    requires forall g :: 0 <= g < FRAME_COUNT && g != m.free[0] && g != parent ==> m'.mem[g] == m.mem[g]
    ensures Inv(m', v)
  {
    var u := TreeOf(m, Other(side));
    FreeIsForeign(m, m.free[0]);
    if m.spaceReady {
      TreesApart(m, v, side);
      Reframe(m.mem, m'.mem, u, m.identity, ViewOf(v, Other(side)));
    }
    FillSlot(Pointers(m), slot, m.free);
  }

  lemma DirectoryKeeps(m: Machine, v: Views, side: Side)
    requires Inv(m, v) && Sane(m) && Exists(m, side)
    ensures var (m', ok) := NeedDirectory(m, side);
            && Inv(m', v) && Sane(m') && Exists(m', side) && m'.nextUserPage == m.nextUserPage
            && (ok <==> TreeOf(m, side).directory != 0 || m.free != [])
            && (ok ==> TreeOf(m', side).directory != 0)
            && TreeOf(m', side).table == TreeOf(m, side).table
            && |m'.free| == |m.free| - (if TreeOf(m, side).directory == 0 && m.free != [] then 1 else 0)
  {
    hide Linked, Shows;
    var t := TreeOf(m, side);
    if t.directory == 0 && m.free != [] {
      var f := m.free[0];
      var m' := NeedDirectory(m, side).0;
      FreeIsForeign(m, f);
      TreeDistinct(m, v, side);
      SharedDirectory(m.mem, t, m.identity, ViewOf(v, side));
      LinkDirectory(m.mem, t, m.identity, ViewOf(v, side), f);
      var slot := if side == Kernel then 3 else 7;
      assert Pointers(m') == Pointers(m)[slot := f];
      RelinkKeeps(m, m', v, side, t.(directory := f), slot, t.pdpt);
    }
  }

  lemma TableKeeps(m: Machine, v: Views, side: Side)
    requires Inv(m, v) && Sane(m) && Exists(m, side) && TreeOf(m, side).directory != 0
    ensures var (m', ok) := NeedTable(m, side);
            && Inv(m', v) && Sane(m') && Exists(m', side) && m'.nextUserPage == m.nextUserPage
            && (ok <==> TreeOf(m, side).table != 0 || m.free != [])
            && (ok ==> TreeOf(m', side).table != 0)
            && TreeOf(m', side).directory == TreeOf(m, side).directory
  {
    hide Linked, Shows;
    var t := TreeOf(m, side);
    if t.table == 0 && m.free != [] {
      var f := m.free[0];
      var m' := NeedTable(m, side).0;
      FreeIsForeign(m, f);
      TreeDistinct(m, v, side);
      LinkTable(m.mem, t, m.identity, ViewOf(v, side), f);
      var slot := if side == Kernel then 4 else 8;
      assert Pointers(m') == Pointers(m)[slot := f];
      RelinkKeeps(m, m', v, side, t.(table := f), slot, t.directory);
    }
  }

  function WithPage(v: Views, side: Side, page: nat, pa: Word): Views
  {
    if side == Kernel then v.(kernel := v.kernel[page := pa]) else v.(space := v.space[page := pa])
  }

  lemma PageKeeps(m: Machine, v: Views, side: Side, page: nat, pa: Word)
    requires Inv(m, v) && Sane(m) && Exists(m, side) && TreeOf(m, side).table != 0
    requires page < ENTRIES && pa % PAGE_SIZE == 0
    ensures Inv(m.(mem := StoreWord(m.mem, TreeOf(m, side).table, page, UserEntry(pa))), WithPage(v, side, page, pa))
  {
    var t, u := TreeOf(m, side), TreeOf(m, Other(side));
    var mem' := StoreWord(m.mem, t.table, page, UserEntry(pa));
    TreeDistinct(m, v, side);
    SetPage(m.mem, t, m.identity, ViewOf(v, side), page, pa);
    if m.spaceReady {
      TreesApart(m, v, side);
      Reframe(m.mem, mem', u, m.identity, ViewOf(v, Other(side)));
    }
  }

  /** The tables a map call still has to allocate. */
  function Missing(t: Tree): nat
  {
    (if t.directory == 0 then 1 else 0) + (if t.table == 0 then 1 else 0)
  }

  // A map call either succeeds and moves one page of one view, or fails and
  // moves none, even when it has linked a new directory on the way.
  lemma MapKeeps(m: Machine, v: Views, side: Side, va: Word, pa: Word)
    requires Inv(m, v) && Sane(m) && Exists(m, side)
    ensures var (m', ok) := MapPage(m, side, va, pa);
            && Sane(m') && m'.nextUserPage == m.nextUserPage
            && (ok <==> 0x4000_0000 <= va < 0x4020_0000 && va % 4096 == 0 && pa % 4096 == 0
                        && Missing(TreeOf(m, side)) <= |m.free|)
            && (ok ==> Missing(TreeOf(m', side)) == 0 && Exists(m', side))
            && Inv(m', if ok then WithPage(v, side, PageIndex(va), pa) else v)
  {
    hide NeedDirectory, NeedTable, TreeHolds;
    if Aligned(va) && Aligned(pa) && InWindow(va) {
      DirectoryKeeps(m, v, side);
      var (m1, linked) := NeedDirectory(m, side);
      if linked {
        TableKeeps(m1, v, side);
        var (m2, ok) := NeedTable(m1, side);
        if ok {
          PageKeeps(m2, v, side, PageIndex(va), pa);
        }
      }
    }
  }

  /** The roots, the identity directory and the active root stay where they are. */
  predicate SameRoots(m: Machine, m': Machine)
  {
    && m'.identity == m.identity && m'.cr3 == m.cr3 && m'.nextUserPage == m.nextUserPage
    && m'.ready == m.ready && m'.spaceReady == m.spaceReady
    && m'.kernel.pml4 == m.kernel.pml4 && m'.kernel.pdpt == m.kernel.pdpt
    && m'.space.pml4 == m.space.pml4 && m'.space.pdpt == m.space.pdpt
  }

  /** A frame that is neither a table nor free keeps its contents and stays neither. */
  predicate Untouched(m: Machine, m': Machine, f: nat)
  {
    f < FRAME_COUNT && f !in Pointers(m) && f !in m.free ==>
      m'.mem[f] == m.mem[f] && f !in Pointers(m') && f !in m'.free
  }

  lemma PointersHave(m: Machine, f: nat)
    ensures f in Pointers(m) <==>
            || f == m.kernel.pml4 || f == m.kernel.pdpt || f == m.identity
            || f == m.kernel.directory || f == m.kernel.table
            || f == m.space.pml4 || f == m.space.pdpt || f == m.space.directory || f == m.space.table
  {
    Slots(m);
  }

  lemma DirectoryTouchesOnlyTables(m: Machine, v: Views, side: Side, f: nat)
    requires Inv(m, v) && Sane(m) && Exists(m, side)
    ensures SameRoots(m, NeedDirectory(m, side).0) && Untouched(m, NeedDirectory(m, side).0, f)
  {
    hide Inv, Pointers, ZeroFrame;
    PointersHave(m, f);
    PointersHave(NeedDirectory(m, side).0, f);
    PointersHave(m, TreeOf(m, side).pdpt);
  }

  lemma TableTouchesOnlyTables(m: Machine, v: Views, side: Side, f: nat)
    requires Inv(m, v) && Sane(m) && Exists(m, side) && TreeOf(m, side).directory != 0
    ensures SameRoots(m, NeedTable(m, side).0) && Untouched(m, NeedTable(m, side).0, f)
  {
    hide Inv, Pointers, ZeroFrame;
    PointersHave(m, f);
    PointersHave(NeedTable(m, side).0, f);
    PointersHave(m, TreeOf(m, side).directory);
  }

  // Mapping touches only page tables and frames that were free.
  lemma MapTouchesOnlyTables(m: Machine, v: Views, side: Side, va: Word, pa: Word, f: nat)
    requires Inv(m, v) && Sane(m) && Exists(m, side)
    ensures var m' := MapPage(m, side, va, pa).0;
            SameRoots(m, m') && Untouched(m, m', f)
  {
    hide Inv, NeedDirectory, NeedTable;
    DirectoryTouchesOnlyTables(m, v, side, f);
    DirectoryKeeps(m, v, side);
    var (m1, linked) := NeedDirectory(m, side);
    if linked {
      TableTouchesOnlyTables(m1, v, side, f);
      TableKeeps(m1, v, side);
      var (m2, ok) := NeedTable(m1, side);
      if ok {
        Slots(m2);
        assert Pointers(m2.(mem := m2.mem)) == Pointers(m2);
      }
    }
  }

  // ---- Creating the address space, and initialisation ----

  lemma NewTree(mem: Memory, f: nat, g: nat, identity: nat)
    requires 0 < f < FRAME_COUNT && 0 < g < FRAME_COUNT && 0 < identity < FRAME_COUNT
    requires f != g && f != identity && g != identity
    requires mem[f] == ZeroFrame() && mem[g] == ZeroFrame() && mem[identity] == IdentityDirectory()
    ensures TreeHolds(StoreWord(StoreWord(mem, f, 0, TableEntry(g)), g, 0, TableEntry(identity)),
                      Tree(f, g, 0, 0), identity, map[])
  {
  }

  lemma SharedDirectory(mem: Memory, t: Tree, identity: nat, view: View)
    requires TreeHolds(mem, t, identity, view)
    ensures InMemory(t) && 0 < identity < FRAME_COUNT
    ensures mem[t.pdpt][0] == TableEntry(identity) && mem[identity] == IdentityDirectory()
  {
  }

  lemma TwoFrames(m: Machine, v: Views)
    requires Inv(m, v) && Sane(m) && |m.free| >= 2
    ensures var f, g := m.free[0], m.free[1];
            var m2 := AllocFrame(AllocFrame(m).0).0;
            && Sane(AllocFrame(m).0)
            && f != g && f !in Pointers(m) && g !in Pointers(m)
            && m2 == m.(mem := m.mem[f := ZeroFrame()][g := ZeroFrame()], free := m.free[2..])
            && AllocFrame(AllocFrame(m).0).1 == g
            && Inv(m2, v)
  {
    AllocKeeps(m, v);
    AllocKeeps(AllocFrame(m).0, v);
    assert m.free[1..][1..] == m.free[2..];
    assert m.free[1..][0] == m.free[1];
  }

  lemma FillTwoSlots(m: Machine)
    requires Unaliased(Pointers(m), m.free) && |m.free| >= 2 && m.space == NO_TREE
    ensures var ps := Pointers(m)[5 := m.free[0]][6 := m.free[1]];
            Unaliased(ps, m.free[2..]) && NonNullCount(ps) == NonNullCount(Pointers(m)) + 2
  {
    Slots(m);
    FillSlot(Pointers(m), 5, m.free);
    FillSlot(Pointers(m)[5 := m.free[0]], 6, m.free[1..]);
    assert m.free[1..][1..] == m.free[2..];
  }

  lemma CreateKeeps(m: Machine, v: Views)
    requires Inv(m, v) && Sane(m)
    ensures Inv(CreateSpace(m).0, v) && Sane(CreateSpace(m).0)
    ensures CreateSpace(m).1 == CreateSpace(m).0.spaceReady
    ensures CreateSpace(m).1 <==> m.spaceReady || |m.free| >= 2
  {
    hide Linked, Shows;
    if m.spaceReady {
    } else if |m.free| >= 2 {
      var f, g := m.free[0], m.free[1];
      var m' := CreateSpace(m).0;
      var m2 := AllocFrame(AllocFrame(m).0).0;
      TwoFrames(m, v);
      FreeIsForeign(m, f);
      FreeIsForeign(m, g);
      SharedDirectory(m2.mem, m.kernel, m.identity, v.kernel);
      NewTree(m2.mem, f, g, m.identity);
      FillTwoSlots(m);
      Reframe(m2.mem, m'.mem, m.kernel, m.identity, v.kernel);
      assert Pointers(m') == Pointers(m)[5 := f][6 := g];
    } else {
      AllocKeeps(m, v);
      AllocKeeps(AllocFrame(m).0, v);
    }
  }

  predicate Allocatable(free: seq<nat>)
  {
    FramesInRange(free) && forall i, j :: 0 <= i < j < |free| ==> free[i] != free[j]
  }

  // Initialisation succeeds exactly when three frames can be allocated.
  lemma InitHolds(mem: Memory, free: seq<nat>, cr3: nat)
    requires Allocatable(free) && cr3 < FRAME_COUNT
    ensures Init(mem, free, cr3).ready <==> |free| >= 3
    ensures |free| >= 3 ==> Inv(Init(mem, free, cr3), Views(map[], map[])) && Init(mem, free, cr3).free == free[3..]
    ensures |free| >= 3 ==> Init(mem, free, cr3).kernel == Tree(free[0], free[1], 0, 0)
                            && Init(mem, free, cr3).nextUserPage == USER_BASE
  {
    if |free| >= 3 {
      var m := Init(mem, free, cr3);
      var p, q, d := free[0], free[1], free[2];
      assert p != q && p != d && q != d;
      assert free[1..][1..][1..] == free[3..] && free[1..][0] == q && free[1..][1..][0] == d;
      assert m.kernel == Tree(p, q, 0, 0) && m.identity == d;
      assert m.mem[p] == OneEntry(TableEntry(q));
      assert m.mem[q] == OneEntry(TableEntry(d))[1 := Link(0)];
      assert Pointers(m) == [p, q, d, 0, 0, 0, 0, 0, 0];
      InitCounts(p, q, d, free);
    }
  }

  lemma InitCounts(p: nat, q: nat, d: nat, free: seq<nat>)
    requires Allocatable(free) && |free| >= 3 && p == free[0] && q == free[1] && d == free[2]
    ensures NonNullCount([p, q, d, 0, 0, 0, 0, 0, 0]) == 3
    ensures Unaliased([p, q, d, 0, 0, 0, 0, 0, 0], free[3..])
  {
    var none: seq<nat> := seq(9, i => 0);
    assert Unaliased(none, free);
    NothingCounts(9);
    FillSlot(none, 0, free);
    FillSlot(none[0 := p], 1, free[1..]);
    FillSlot(none[0 := p][1 := q], 2, free[1..][1..]);
    assert free[1..][1..][1..] == free[3..];
    assert none[0 := p][1 := q][2 := d] == [p, q, d, 0, 0, 0, 0, 0, 0];
  }

  lemma {:induction false} NothingCounts(n: nat)
    ensures NonNullCount(seq(n, i => 0)) == 0
  {
    if n > 0 {
      assert seq(n, i => 0)[..n - 1] == seq(n - 1, i => 0);
      NothingCounts(n - 1);
    }
  }

  // ---- Runs ----

  /** The abstract effect of one operation that succeeded. */
  ghost function ViewStep(m: Machine, v: Views, op: Op): Views
    requires Inv(m, v)
    requires op.MapKernel? || op.MapSpace? ==> InWindow(op.va)
  {
    match op
    case MapKernel(va, pa) => WithPage(v, Kernel, PageIndex(va), pa)
    case MapSpace(va, pa) => WithPage(v, Space, PageIndex(va), pa)
    case UserPage => if m.free == [] then v
                     else WithPage(v, Kernel, PageIndex(m.nextUserPage), m.free[0] * PAGE_SIZE)
    case _ => v
  }

  lemma NextPageAligned(m: Machine, v: Views)
    requires Inv(m, v)
    ensures USER_BASE <= m.nextUserPage && m.nextUserPage % PAGE_SIZE == 0
  {
  }

  lemma NextPageKeeps(m: Machine, v: Views)
    requires Inv(m, v) && Sane(m) && InWindow(m.nextUserPage)
    ensures Inv(m.(nextUserPage := m.nextUserPage + PAGE_SIZE), v)
    ensures Sane(m.(nextUserPage := m.nextUserPage + PAGE_SIZE))
  {
  }

  lemma UserPageKeeps(m: Machine, v: Views)
    requires Inv(m, v) && Sane(m)
    ensures var (m', va) := AllocUserPage(m);
            && Sane(m')
            && (va != 0 ==> va == m.nextUserPage && m.free != [])
            && (va != 0 <==> InWindow(m.nextUserPage) && 1 + Missing(m.kernel) <= |m.free|)
            && Inv(m', if va != 0 then ViewStep(m, v, UserPage) else v)
  {
    hide Inv, MapPage;
    AllocKeeps(m, v);
    var (m1, f) := AllocFrame(m);
    if f != 0 {
      NextPageAligned(m1, v);
      MapKeeps(m1, v, Kernel, m1.nextUserPage, f * PAGE_SIZE);
      var (m2, ok) := MapPage(m1, Kernel, m1.nextUserPage, f * PAGE_SIZE);
      if ok {
        NextPageKeeps(m2, WithPage(v, Kernel, PageIndex(m1.nextUserPage), f * PAGE_SIZE));
      }
    }
  }

  // Every operation keeps the invariant, with the views moved when it succeeds.
  lemma StepKeeps(m: Machine, v: Views, op: Op)
    requires Inv(m, v) && Sane(m)
    ensures (op.MapKernel? || op.MapSpace?) && Step(m, op).1 ==> InWindow(op.va)
    ensures var (m', ok) := Step(m, op);
            Sane(m') && Inv(m', if ok then ViewStep(m, v, op) else v)
  {
    hide Linked, Shows, MapPage, CreateSpace, AllocUserPage, Unaliased, NonNullCount;
    match op
    case AllocPage =>
      AllocKeeps(m, v);
      InvIsSane(Step(m, op).0, v);
    case MapKernel(va, pa) => MapKeeps(m, v, Kernel, va, pa);
    case Create => CreateKeeps(m, v);
    case MapSpace(va, pa) =>
      if m.spaceReady {
        MapKeeps(m, v, Space, va, pa);
      }
    case Switch =>
    case UserPage => UserPageKeeps(m, v);
    case Store(f, i, w) =>
      if f < FRAME_COUNT && i < ENTRIES && f !in Pointers(m) {
        StoreKeeps(m, v, f, i, w);
      }
  }

  /** The machine and the views after a sequence of operations. */
  ghost function Run(m: Machine, v: Views, ops: seq<Op>): (r: (Machine, Views))
    requires Inv(m, v)
    ensures Inv(r.0, r.1)
    decreases |ops|
  {
    if ops == [] then (m, v)
    else
      InvIsSane(m, v);
      StepKeeps(m, v, ops[0]);
      var (m', ok) := Step(m, ops[0]);
      Run(m', if ok then ViewStep(m, v, ops[0]) else v, ops[1..])
  }
}
