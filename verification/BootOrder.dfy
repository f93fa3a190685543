// The order in which the kernel boots: it switches to the user address space
// and prepares the user image before anything asks for a user page.
module BootOrder {
  import opened Wrappers
  import opened Bits
  import opened Frames
  import opened PageTables
  import opened PagingInvariant
  import opened PagingRuns
  import opened PagingTheorems
  import opened UserProcess

  // ---- Frames taken by mapping ----

  // A map call takes the tables it is missing, or all that is left.
  lemma MapFrees(m: Machine, side: Side, va: Word, pa: Word)
    requires Sane(m) && m.ready && InWindow(va) && va % PAGE_SIZE == 0 && pa % PAGE_SIZE == 0
    ensures var (m', ok) := MapPage(m, side, va, pa);
            && |m'.free| == (if Missing(TreeOf(m, side)) <= |m.free| then |m.free| - Missing(TreeOf(m, side)) else 0)
            && TreeOf(m', Other(side)) == TreeOf(m, Other(side))
  {
    hide Aligned, StoreWord, ZeroFrame;
    assert Aligned(va) && Aligned(pa);
  }

  // One user page, in frames.
  lemma UserPageCounts(m: Machine, v: Views)
    requires Inv(m, v) && Sane(m)
    ensures var (m', va) := AllocUserPage(m);
            && m'.cr3 == m.cr3 && m'.space == m.space && m'.spaceReady == m.spaceReady
            && (if va != 0 then
                  && |m'.free| == |m.free| - 1 - Missing(m.kernel) && Missing(m'.kernel) == 0
                  && m'.nextUserPage == m.nextUserPage + PAGE_SIZE
                else
                  && m'.nextUserPage == m.nextUserPage && (Missing(m.kernel) == 0 ==> Missing(m'.kernel) == 0)
                  && |m'.free| == if InWindow(m.nextUserPage) || m.free == [] then 0 else |m.free| - 1)
  {
    hide Inv, MapPage;
    UserPageKeeps(m, v);
    AllocKeeps(m, v);
    NextPageAligned(m, v);
    ReadyMachine(m, v);
    var (m1, f) := AllocFrame(m);
    if f != 0 {
      MapKeeps(m1, v, Kernel, m1.nextUserPage, f * PAGE_SIZE);
      MapTouchesOnlyTables(m1, v, Kernel, m1.nextUserPage, f * PAGE_SIZE, 0);
      if InWindow(m1.nextUserPage) {
        MapFrees(m1, Kernel, m1.nextUserPage, f * PAGE_SIZE);
      } else {
        OutOfWindow(m1, Kernel, m1.nextUserPage, f * PAGE_SIZE);
      }
    }
  }

  lemma OutOfWindow(m: Machine, side: Side, va: Word, pa: Word)
    requires Sane(m) && !InWindow(va)
    ensures MapPage(m, side, va, pa) == (m, false)
  {
  }

  lemma ReadyMachine(m: Machine, v: Views)
    requires Inv(m, v)
    ensures m.ready && (!m.spaceReady ==> m.space == NO_TREE)
  {
  }

  // ---- Any number of user pages ----

  lemma UserPageSane(m: Machine)
    requires Sane(m)
    ensures Sane(AllocUserPage(m).0)
  {
    hide MapPage;
    var (m1, f) := AllocFrame(m);
    MapKeepsNextUserPage(m1, Kernel, m1.nextUserPage, f * PAGE_SIZE);
  }

  /** The machine after `j` calls for a user page. */
  function UserPages(m: Machine, j: nat): (r: Machine)
    requires Sane(m)
    ensures Sane(r)
  {
    if j == 0 then m
    else
      UserPageSane(UserPages(m, j - 1));
      AllocUserPage(UserPages(m, j - 1)).0
  }

  /** How many of `j` calls return a page when `n` frames are free. */
  function Served(n: nat, j: nat): nat
  {
    Min(Min(j, 512), if n > 2 then n - 2 else 0)
  }

  // The first call takes three frames and each later one a single frame, also
  // when it fails because the window is full, until none is left; what the
  // address space maps stays as it is.
  lemma {:induction false} UserPagesShape(m: Machine, v: Views, j: nat) returns (v': Views)
    requires Inv(m, v) && Sane(m) && m.nextUserPage == USER_BASE && Missing(m.kernel) == 2
    ensures var r := UserPages(m, j);
            && Inv(r, v') && v'.space == v.space
            && r.cr3 == m.cr3 && r.space == m.space && r.spaceReady == m.spaceReady
            && r.nextUserPage == USER_BASE + Served(|m.free|, j) * PAGE_SIZE
            && (if j == 0 then r == m else |r.free| == if j + 2 <= |m.free| then |m.free| - 2 - j else 0)
            && (Served(|m.free|, j) > 0 ==> Missing(r.kernel) == 0)
  {
    hide Inv, AllocUserPage, Missing;
    if j == 0 {
      v' := v;
    } else {
      var u := UserPagesShape(m, v, j - 1);
      var r := UserPages(m, j - 1);
      UserPageKeeps(r, u);
      UserPageCounts(r, u);
      v' := if AllocUserPage(r).1 != 0 then ViewStep(r, u, UserPage) else u;
    }
  }

  // The next call succeeds exactly while the window and the frames last.
  lemma NextUserPage(m: Machine, v: Views, j: nat)
    requires Inv(m, v) && Sane(m) && m.nextUserPage == USER_BASE && Missing(m.kernel) == 2
    ensures var va := AllocUserPage(UserPages(m, j)).1;
            && (va != 0 <==> j < 512 && j + 3 <= |m.free|)
            && (va != 0 ==> va == USER_BASE + j * PAGE_SIZE)
  {
    hide Inv, AllocUserPage;
    var u := UserPagesShape(m, v, j);
    UserPageKeeps(UserPages(m, j), u);
  }

  // Under the root of the address space a user page is not seen: the address
  // returned translates as the address space says.
  lemma UserPageUnseen(m: Machine, v: Views)
    requires Inv(m, v) && Sane(m) && m.spaceReady && m.cr3 == m.space.pml4 && AllocUserPage(m).1 != 0
    ensures var (m', va) := AllocUserPage(m);
            m'.cr3 < FRAME_COUNT && Walk(m'.mem, m'.cr3, va) == Expected(v.space, va)
  {
    hide Walk, Linked, Shows, AllocUserPage;
    UserPageKeeps(m, v);
    UserPageShape(m, v);
    var (m', va) := AllocUserPage(m);
    var v' := ViewStep(m, v, UserPage);
    InvIsSane(m', v');
    WalkIsExpected(m'.mem, m'.space, m'.identity, v'.space, va);
  }

  // ---- User pages among other operations ----

  predicate NoSpaceMapping(ops: seq<Op>)
  {
    forall i :: 0 <= i < |ops| ==> !ops[i].MapSpace?
  }

  lemma StepKeepsSpace(m: Machine, v: Views, op: Op)
    requires Inv(m, v) && Sane(m) && m.spaceReady && m.cr3 == m.space.pml4 && !op.MapSpace?
    requires op.MapKernel? && Step(m, op).1 ==> InWindow(op.va)
    ensures var (m', ok) := Step(m, op);
            && m'.spaceReady && m'.cr3 == m'.space.pml4
            && (ok ==> ViewStep(m, v, op).space == v.space)
  {
    hide Inv, MapPage, AllocUserPage;
    match op
    case MapKernel(va, pa) => MapTouchesOnlyTables(m, v, Kernel, va, pa, 0);
    case UserPage => UserPageCounts(m, v);
    case _ =>
  }

  lemma {:induction false} RunKeepsSpace(m: Machine, v: Views, ops: seq<Op>)
    requires Inv(m, v) && m.spaceReady && m.cr3 == m.space.pml4 && NoSpaceMapping(ops)
    ensures var (m', v') := Run(m, v, ops);
            Sane(m') && m'.spaceReady && m'.cr3 == m'.space.pml4 && v'.space == v.space
    decreases |ops|
  {
    hide Inv, Step;
    InvIsSane(m, v);
    if ops != [] {
      StepKeeps(m, v, ops[0]);
      assert !ops[0].MapSpace?;
      StepKeepsSpace(m, v, ops[0]);
      var (m', ok) := Step(m, ops[0]);
      RunKeepsSpace(m', if ok then ViewStep(m, v, ops[0]) else v, ops[1..]);
    }
  }

  // After any operations that map nothing into the active address space, a
  // user page is handed out exactly when the window and the frames allow it,
  // and its address leads where the address space already did.
  lemma UserPageAfterRun(m: Machine, v: Views, ops: seq<Op>)
    requires Inv(m, v) && m.spaceReady && m.cr3 == m.space.pml4 && NoSpaceMapping(ops)
    ensures var r := Run(m, v, ops).0;
            && Sane(r)
            && var (r', va) := AllocUserPage(r);
            && Sane(r') && (va != 0 <==> InWindow(r.nextUserPage) && 1 + Missing(r.kernel) <= |r.free|)
            && (va != 0 ==> va == r.nextUserPage && Walk(r'.mem, r'.cr3, va) == Expected(v.space, va))
  {
    hide Inv, AllocUserPage, Walk, Run, Expected;
    RunKeepsSpace(m, v, ops);
    var (r, v') := Run(m, v, ops);
    UserPageKeeps(r, v');
    if AllocUserPage(r).1 != 0 {
      UserPageUnseen(r, v');
    }
  }

  // ---- Boot ----

  lemma TwoPages(m: Machine, v: Views)
    requires Inv(m, v) && Sane(m) && |m.free| >= 2
    ensures var (m2, code) := AllocFrame(m);
            var (m3, stack) := AllocFrame(m2);
            && code == m.free[0] && stack == m.free[1] && m3 == m.(mem := m3.mem, free := m.free[2..])
            && Inv(m3, v) && Sane(m3) && PrivateFrame(m3, code) && PrivateFrame(m3, stack)
  {
    hide TreeHolds;
    TwoFrames(m, v);
    FreeRange(m, v);
  }

  lemma FreeRange(m: Machine, v: Views)
    requires Inv(m, v) && |m.free| >= 2
    ensures 0 < m.free[0] < FRAME_COUNT && 0 < m.free[1] < FRAME_COUNT
    ensures m.free[0] !in m.free[2..] && m.free[1] !in m.free[2..]
  {
    hide TreeHolds;
  }

  lemma ImageFails(m: Machine, v: Views, program: seq<Byte>)
    requires Inv(m, v) && Sane(m) && m.spaceReady && |m.free| < 2
    ensures var m' := PrepareImage(m, program).0;
            && PrepareImage(m, program) == (m.(mem := m'.mem, free := []), false) && Inv(m', v) && Sane(m')
  {
    hide TreeHolds;
    AllocKeeps(m, v);
    AllocKeeps(AllocFrame(m).0, v);
  }

  // Preparing the image in an address space that maps nothing yet.
  lemma FirstImage(m: Machine, v: Views, program: seq<Byte>)
    requires Inv(m, v) && Sane(m) && m.spaceReady && Missing(m.space) == 2 && 1 <= |program| <= PAGE_SIZE
    ensures var (m', ok) := PrepareImage(m, program);
            && Sane(m') && (ok <==> |m.free| >= 4)
            && (ok ==> m.free[0] < FRAME_COUNT && m.free[1] < FRAME_COUNT)
            && |m'.free| == (if ok then |m.free| - 4 else 0)
            && m'.kernel == m.kernel && m'.nextUserPage == m.nextUserPage && m'.cr3 == m.cr3
            && m'.spaceReady && m'.space.pml4 == m.space.pml4
            && Inv(m', if ok then ImageViews(v, m.free[0], m.free[1]) else v)
  {
    hide Inv, AllocFrame, MapPage, CopyBytes, Pointers;
    ReadyMachine(m, v);
    if |m.free| < 2 {
      ImageFails(m, v, program);
      return;
    }
    TwoPages(m, v);
    var (m2, code) := AllocFrame(m);
    var (m3, stack) := AllocFrame(m2);
    var m4 := m3.(mem := m3.mem[code := CopyBytes(m3.mem[code], program)]);
    CopyKeeps(m3, v, code, CopyBytes(m3.mem[code], program));
    SamePointers(m3, m4);
    MapImage(m4, v, code, stack);
    MapKeeps(m4, v, Space, USER_BASE, code * PAGE_SIZE);
    MapFrees(m4, Space, USER_BASE, code * PAGE_SIZE);
    MapTouchesOnlyTables(m4, v, Space, USER_BASE, code * PAGE_SIZE, 0);
    var (m5, codeMapped) := MapPage(m4, Space, USER_BASE, code * PAGE_SIZE);
    if codeMapped {
      var v5 := WithPage(v, Space, PageIndex(USER_BASE), code * PAGE_SIZE);
      MapTouchesOnlyTables(m5, v5, Space, STACK_PAGE, stack * PAGE_SIZE, 0);
      ReadyMachine(m5, v5);
      MapFrees(m5, Space, STACK_PAGE, stack * PAGE_SIZE);
    }
  }

  lemma SamePointers(m: Machine, m': Machine)
    requires m' == m.(mem := m'.mem)
    ensures Pointers(m') == Pointers(m)
  {
  }

  /** The machine after initialisation, creation of the address space, the switch to it, and the user image. */
  function Booted(mem: Memory, free: seq<nat>, cr3: nat, program: seq<Byte>): (m: Machine)
    requires Allocatable(free) && cr3 < FRAME_COUNT && |free| >= 3
    ensures Sane(m)
  {
    InitHolds(mem, free, cr3);
    InvIsSane(Init(mem, free, cr3), Views(map[], map[]));
    var created := CreateSpace(Init(mem, free, cr3)).0;
    StepSane(created, Switch);
    var m := Step(created, Switch).0;
    PrepareSane(m, program);
    PrepareImage(m, program).0
  }

  lemma StepSane(m: Machine, op: Op)
    requires Sane(m) && op.Switch?
    ensures Sane(Step(m, op).0)
  {
  }

  lemma PrepareSane(m: Machine, program: seq<Byte>)
    requires Sane(m)
    ensures Sane(PrepareImage(m, program).0)
  {
    hide CreateSpace, AllocFrame, MapPage, CopyBytes;
  }

  lemma InitShape(mem: Memory, free: seq<nat>, cr3: nat)
    requires FramesInRange(free) && cr3 < FRAME_COUNT
    ensures !Init(mem, free, cr3).spaceReady
  {
  }

  // Creation and switch, from the initial state.
  lemma SpaceActive(m: Machine, v: Views)
    requires Inv(m, v) && Sane(m) && |m.free| >= 2 && !m.spaceReady
    ensures var (m', ok) := Step(CreateSpace(m).0, Switch);
            && ok && Inv(m', v) && Sane(m') && m'.spaceReady && m'.cr3 == m'.space.pml4 && Missing(m'.space) == 2
            && m'.free == m.free[2..] && m'.kernel == m.kernel && m'.nextUserPage == m.nextUserPage
  {
    hide TreeHolds;
    CreateKeeps(m, v);
    assert m.free[1..][1..] == m.free[2..];
  }

  // Without frames for the address space there is none to switch to, and
  // nothing is left afterwards.
  lemma NoSpace(m: Machine, v: Views, program: seq<Byte>)
    requires Inv(m, v) && Sane(m) && |m.free| < 2 && !m.spaceReady
    ensures var (m', ok) := Step(CreateSpace(m).0, Switch);
            && !ok && Sane(m')
            && var m2 := PrepareImage(m', program).0;
            && m2 == m.(mem := m2.mem, free := []) && Sane(m2) && Inv(m2, v)
  {
    hide TreeHolds, CopyBytes, MapPage;
    AllocKeeps(m, v);
    AllocKeeps(AllocFrame(m).0, v);
    assert m.free != [] ==> m.free[1..] == [];
  }

  /** The views after boot: the image is mapped if nine frames were free. */
  function BootViews(free: seq<nat>): Views
    requires Allocatable(free)
  {
    var none := Views(map[], map[]);
    if |free| >= 9 then ImageViews(none, free[5], free[6]) else none
  }

  // The order of boot (main.c) switches to the user address space and maps the
  // user image there before anything asks for a user page.
  lemma BootedHolds(mem: Memory, free: seq<nat>, cr3: nat, program: seq<Byte>)
    requires Allocatable(free) && cr3 < FRAME_COUNT && |free| >= 5 && 1 <= |program| <= PAGE_SIZE
    ensures var m := Booted(mem, free, cr3, program);
            && Inv(m, BootViews(free)) && m.spaceReady && m.cr3 == m.space.pml4
            && m.nextUserPage == USER_BASE && Missing(m.kernel) == 2
            && |m.free| == if |free| >= 9 then |free| - 9 else 0
  {
    hide Inv, Init, CreateSpace, Step, PrepareImage, Linked, Shows;
    var none := Views(map[], map[]);
    var m0 := Init(mem, free, cr3);
    InitHolds(mem, free, cr3);
    InitShape(mem, free, cr3);
    InvIsSane(m0, none);
    SpaceActive(m0, none);
    var m1 := Step(CreateSpace(m0).0, Switch).0;
    assert m1.free == free[5..];
    FirstImage(m1, none, program);
  }

  // After boot, whatever else allocates, maps into the kernel tree, stores or
  // switches in between: a user page is handed out exactly when the window and
  // the frames last, and its address never leads to the new page. The page at
  // the user base is the program, the last page of the window the stack, and
  // every page between faults.
  lemma BootOrderHidesUserPages(mem: Memory, free: seq<nat>, cr3: nat, program: seq<Byte>, ops: seq<Op>)
    requires Allocatable(free) && cr3 < FRAME_COUNT && |free| >= 9 && 1 <= |program| <= PAGE_SIZE
    requires NoSpaceMapping(ops)
    ensures Inv(Booted(mem, free, cr3, program), BootViews(free))
    ensures var r := Run(Booted(mem, free, cr3, program), BootViews(free), ops).0;
            && Sane(r)
            && var (r', va) := AllocUserPage(r);
            && Sane(r') && (va != 0 <==> InWindow(r.nextUserPage) && 1 + Missing(r.kernel) <= |r.free|)
            && (va != 0 ==>
                  && va == r.nextUserPage
                  && Walk(r'.mem, r'.cr3, va) ==
                     if va == USER_BASE then To(free[5] * PAGE_SIZE)
                     else if va == STACK_PAGE then To(free[6] * PAGE_SIZE) else Fault)
  {
    hide Inv, Booted, AllocUserPage, Walk, Run, Expected;
    BootedHolds(mem, free, cr3, program);
    var m := Booted(mem, free, cr3, program);
    UserPageAfterRun(m, BootViews(free), ops);
    var r := Run(m, BootViews(free), ops).0;
    if InWindow(r.nextUserPage) {
      NextPageAligned(r, Run(m, BootViews(free), ops).1);
      ImageSeen(Views(map[], map[]), free[5], free[6], r.nextUserPage);
    }
  }

  // If nothing else allocates after boot, the call number `j`, from 0, returns
  // an address exactly when j < 512 and 12 + j frames were free at boot.
  lemma UserPagesInARow(mem: Memory, free: seq<nat>, cr3: nat, program: seq<Byte>, j: nat)
    requires Allocatable(free) && cr3 < FRAME_COUNT && |free| >= 3 && 1 <= |program| <= PAGE_SIZE
    ensures var m := UserPages(Booted(mem, free, cr3, program), j);
            var (m', va) := AllocUserPage(m);
            && Sane(m') && (va != 0 <==> j < 512 && |free| >= 12 + j)
            && (va != 0 ==>
                  && va == 0x4000_0000 + j * 4096
                  && Walk(m'.mem, m'.cr3, va) ==
                     if j == 0 then To(free[5] * PAGE_SIZE)
                     else if j == 511 then To(free[6] * PAGE_SIZE) else Fault)
  {
    hide Inv, Init, AllocUserPage, Walk, Linked, Shows, Expected, CreateSpace, Step, PrepareImage;
    var m := Booted(mem, free, cr3, program);
    UserPageSane(UserPages(m, j));
    if |free| < 5 {
      var none := Views(map[], map[]);
      InitHolds(mem, free, cr3);
      InitShape(mem, free, cr3);
      InvIsSane(Init(mem, free, cr3), none);
      NoSpace(Init(mem, free, cr3), none, program);
      NextUserPage(m, none, j);
    } else {
      BootedHolds(mem, free, cr3, program);
      NextUserPage(m, BootViews(free), j);
      if AllocUserPage(UserPages(m, j)).1 != 0 {
        var v' := UserPagesShape(m, BootViews(free), j);
        UserPageKeeps(UserPages(m, j), v');
        UserPageUnseen(UserPages(m, j), v');
        ImageSeen(Views(map[], map[]), free[5], free[6], USER_BASE + j * PAGE_SIZE);
      }
    }
  }

  // What the views of the image say of a page.
  lemma ImageSeen(v: Views, code: nat, stack: nat, va: Word)
    requires 0 < code < FRAME_COUNT && 0 < stack < FRAME_COUNT && v.space == map[]
    requires InWindow(va) && va % PAGE_SIZE == 0
    ensures Expected(ImageViews(v, code, stack).space, va) ==
            if va == USER_BASE then To(code * PAGE_SIZE)
            else if va == STACK_PAGE then To(stack * PAGE_SIZE) else Fault
  {
    var j := PageIndex(va);
    assert va == USER_BASE + j * PAGE_SIZE;
    QuotientIs(code * PAGE_SIZE, PHYSICAL_LIMIT, 0, code * PAGE_SIZE);
    QuotientIs(stack * PAGE_SIZE, PHYSICAL_LIMIT, 0, stack * PAGE_SIZE);
    assert PageIndex(USER_BASE) == 0 && PageIndex(STACK_PAGE) == 511;
  }
}
