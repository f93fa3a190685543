// The user process image: a client that composes the allocator with paging.
module UserProcess {
  import opened Wrappers
  import opened Bits
  import opened Frames
  import opened PageAllocator
  import opened PageTables
  import opened PagingInvariant
  import opened PagingRuns
  import opened Paging

  const STACK_TOP: Word := USER_BASE + USER_WINDOW_SIZE
  const STACK_PAGE: Word := STACK_TOP - PAGE_SIZE

  /** Preparing the image: its address space, one code page and one stack page. */
  function PrepareImage(m: Machine, program: seq<Byte>): (Machine, bool)
    requires Sane(m)
  {
    var (m1, created) := CreateSpace(m);
    var (m2, code) := AllocFrame(m1);
    var (m3, stack) := AllocFrame(m2);
    if !created || code == 0 || stack == 0 || |program| == 0 || |program| > PAGE_SIZE then (m3, false)
    else
      var m4 := m3.(mem := m3.mem[code := CopyBytes(m3.mem[code], program)]);
      var (m5, codeMapped) := MapPage(m4, Space, USER_BASE, code * PAGE_SIZE);
      if !codeMapped then (m5, false) else MapPage(m5, Space, STACK_PAGE, stack * PAGE_SIZE)
  }

  /** What a load of one byte sees through the walk of a tree. */
  function ReadVirtual(mem: Memory, root: nat, va: Word): Option<Byte>
    requires root < FRAME_COUNT
  {
    match Walk(mem, root, va)
    case To(a) => if a / PAGE_SIZE < FRAME_COUNT then Some(FrameByte(mem[a / PAGE_SIZE], a % PAGE_SIZE)) else None
    case _ => None
  }

  // A view that maps a page to a frame lets every byte of that frame be read.
  lemma ReadMappedByte(mem: Memory, t: Tree, identity: nat, view: View, page: Word, f: nat, k: nat)
    requires TreeHolds(mem, t, identity, view) && InWindow(page) && page % PAGE_SIZE == 0
    requires f < FRAME_COUNT && PageIndex(page) in view && view[PageIndex(page)] == f * PAGE_SIZE
    requires k < PAGE_SIZE
    ensures ReadVirtual(mem, t.pml4, page + k) == Some(FrameByte(mem[f], k))
  {
    hide Walk, Linked, Shows;
    WalkIsExpected(mem, t, identity, view, page + k);
    QuotientIs(page - USER_BASE + k, PAGE_SIZE, PageIndex(page), k);
    QuotientIs(page + k, PAGE_SIZE, page / PAGE_SIZE, k);
    QuotientIs(f * PAGE_SIZE, PHYSICAL_LIMIT, 0, f * PAGE_SIZE);
    QuotientIs(f * PAGE_SIZE + k, PAGE_SIZE, f, k);
    assert InWindow(page + k);
  }

  // Once one page of a tree could be mapped, no later mapping can run out of frames.
  lemma LaterMapsSucceed(m: Machine, v: Views, side: Side, va: Word, pa: Word, va': Word, pa': Word)
    requires Inv(m, v) && Sane(m) && Exists(m, side) && MapPage(m, side, va, pa).1
    requires InWindow(va') && va' % PAGE_SIZE == 0 && pa' % PAGE_SIZE == 0
    ensures Sane(MapPage(m, side, va, pa).0) && MapPage(MapPage(m, side, va, pa).0, side, va', pa').1
  {
    hide Inv, MapPage;
    MapKeeps(m, v, side, va, pa);
    MapKeeps(MapPage(m, side, va, pa).0, WithPage(v, side, PageIndex(va), pa), side, va', pa');
  }

  /** The views once the code and stack pages are mapped. */
  function ImageViews(v: Views, code: nat, stack: nat): Views
    requires code < FRAME_COUNT && stack < FRAME_COUNT
  {
    WithPage(WithPage(v, Space, PageIndex(USER_BASE), code * PAGE_SIZE),
             Space, PageIndex(STACK_PAGE), stack * PAGE_SIZE)
  }

  // The two page frames, taken after the address space exists.
  lemma ImageFrames(m: Machine, v: Views)
    requires Inv(m, v) && Sane(m)
    ensures var m1 := CreateSpace(m).0;
            && Inv(m1, v) && Sane(m1)
            && var (m2, code) := AllocFrame(m1);
            && Inv(m2, v) && Sane(m2)
            && var (m3, stack) := AllocFrame(m2);
            && Inv(m3, v) && Sane(m3) && m3.spaceReady == m1.spaceReady && m3.space == m1.space
            && (code != 0 <==> |m1.free| >= 1) && (stack != 0 <==> |m1.free| >= 2)
            && |m3.free| == (if |m1.free| >= 2 then |m1.free| - 2 else 0)
            && (stack != 0 ==>
                  && code != stack && m3.mem[code] == ZeroFrame() && m3.mem[stack] == ZeroFrame()
                  && code !in Pointers(m3) && code !in m3.free && stack !in Pointers(m3) && stack !in m3.free)
  {
    hide CreateSpace, TreeHolds;
    CreateKeeps(m, v);
    var m1 := CreateSpace(m).0;
    AllocKeeps(m1, v);
    AllocKeeps(AllocFrame(m1).0, v);
    if |m1.free| >= 2 {
      TwoFrames(m1, v);
    }
  }

  lemma CopyKeeps(m: Machine, v: Views, f: nat, frame: Frame)
    requires Inv(m, v) && Sane(m) && f < FRAME_COUNT && f !in Pointers(m)
    ensures Inv(m.(mem := m.mem[f := frame]), v) && Sane(m.(mem := m.mem[f := frame]))
  {
    FreeIsForeign(m, f);
    Reframe(m.mem, m.mem[f := frame], m.kernel, m.identity, v.kernel);
    if m.spaceReady {
      Reframe(m.mem, m.mem[f := frame], m.space, m.identity, v.space);
    }
  }

  predicate PrivateFrame(m: Machine, f: nat)
  {
    0 < f < FRAME_COUNT && f !in Pointers(m) && f !in m.free
  }

  // The stack mapping cannot fail once the code mapping has succeeded, and
  // neither mapping writes to the two pages.
  lemma MapImage(m: Machine, v: Views, code: nat, stack: nat)
    requires Inv(m, v) && Sane(m) && m.spaceReady && PrivateFrame(m, code) && PrivateFrame(m, stack)
    ensures var (m1, codeMapped) := MapPage(m, Space, USER_BASE, code * PAGE_SIZE);
            && (codeMapped <==> Missing(m.space) <= |m.free|)
            && var (m2, stackMapped) := MapPage(m1, Space, STACK_PAGE, stack * PAGE_SIZE);
            && (codeMapped ==> stackMapped && Inv(m2, ImageViews(v, code, stack)))
            && (codeMapped ==> PrivateFrame(m2, code) && PrivateFrame(m2, stack))
            && (codeMapped ==> m2.mem[code] == m.mem[code] && m2.mem[stack] == m.mem[stack])
            && (codeMapped ==> m2.spaceReady)
  {
    hide Inv, MapPage;
    MapKeeps(m, v, Space, USER_BASE, code * PAGE_SIZE);
    MapTouchesOnlyTables(m, v, Space, USER_BASE, code * PAGE_SIZE, code);
    MapTouchesOnlyTables(m, v, Space, USER_BASE, code * PAGE_SIZE, stack);
    var (m1, codeMapped) := MapPage(m, Space, USER_BASE, code * PAGE_SIZE);
    if codeMapped {
      var v1 := WithPage(v, Space, PageIndex(USER_BASE), code * PAGE_SIZE);
      MapKeeps(m1, v1, Space, STACK_PAGE, stack * PAGE_SIZE);
      MapTouchesOnlyTables(m1, v1, Space, STACK_PAGE, stack * PAGE_SIZE, code);
      MapTouchesOnlyTables(m1, v1, Space, STACK_PAGE, stack * PAGE_SIZE, stack);
    }
  }

  /** The image as the process will see it: program bytes padded with zeros, and a cleared stack page. */
  ghost predicate ImageReadable(m: Machine, program: seq<Byte>)
    requires Sane(m)
  {
    forall k :: 0 <= k < PAGE_SIZE ==> OffsetReadable(m, program, k)
  }

  predicate OffsetReadable(m: Machine, program: seq<Byte>, k: nat)
    requires Sane(m) && k < PAGE_SIZE
  {
    && ReadVirtual(m.mem, m.space.pml4, USER_BASE + k) == Some(if k < |program| then program[k] else 0)
    && ReadVirtual(m.mem, m.space.pml4, STACK_PAGE + k) == Some(0)
  }

  lemma ImageReads(m: Machine, v: Views, code: nat, stack: nat, program: seq<Byte>)
    requires 0 < code < FRAME_COUNT && 0 < stack < FRAME_COUNT && |program| <= PAGE_SIZE
    requires Inv(m, ImageViews(v, code, stack)) && Sane(m) && m.spaceReady
    requires m.mem[code] == CopyBytes(ZeroFrame(), program) && m.mem[stack] == ZeroFrame()
    ensures ImageReadable(m, program)
  {
    hide Inv, Walk, CopyBytes, FrameByte, ZeroFrame, TreeHolds, Canonical;
    SpaceHolds(m, ImageViews(v, code, stack));
    var view := ImageViews(v, code, stack).space;
    assert PageIndex(USER_BASE) == 0 && PageIndex(STACK_PAGE) == 511;
    PageReads(m.mem, m.space, m.identity, view, USER_BASE, code);
    PageReads(m.mem, m.space, m.identity, view, STACK_PAGE, stack);
    forall k | 0 <= k < PAGE_SIZE
      ensures OffsetReadable(m, program, k)
    {
      ImageBytes(program, k);
    }
  }

  lemma ImageBytes(program: seq<Byte>, k: nat)
    requires |program| <= PAGE_SIZE && k < PAGE_SIZE
    ensures FrameByte(CopyBytes(ZeroFrame(), program), k) == if k < |program| then program[k] else 0
    ensures FrameByte(ZeroFrame(), k) == 0
  {
    ZeroFrameBytes(k);
  }

  lemma SpaceHolds(m: Machine, v: Views)
    requires Inv(m, v) && m.spaceReady
    ensures TreeHolds(m.mem, m.space, m.identity, v.space)
  {
  }

  lemma PageReads(mem: Memory, t: Tree, identity: nat, view: View, page: Word, f: nat)
    requires TreeHolds(mem, t, identity, view) && InWindow(page) && page % PAGE_SIZE == 0
    requires f < FRAME_COUNT && PageIndex(page) in view && view[PageIndex(page)] == f * PAGE_SIZE
    ensures forall k :: 0 <= k < PAGE_SIZE ==> ReadVirtual(mem, t.pml4, page + k) == Some(FrameByte(mem[f], k))
  {
    forall k | 0 <= k < PAGE_SIZE
      ensures ReadVirtual(mem, t.pml4, page + k) == Some(FrameByte(mem[f], k))
    {
      ReadMappedByte(mem, t, identity, view, page, f, k);
    }
  }

  /** How many free frames preparing the image takes. */
  function FramesNeeded(m: Machine): nat
  {
    if m.spaceReady then 2 + Missing(m.space) else 6
  }

  // Preparation succeeds exactly when the program fits one page and enough
  // frames are free; the process then reads exactly its program and a cleared
  // stack, from two frames that are neither tables nor ever handed out again.
  // A failure, whatever it has allocated or linked on the way, moves no page.
  lemma ImagePrepared(m: Machine, v: Views, program: seq<Byte>)
    requires Inv(m, v) && Sane(m)
    ensures var (m', ok) := PrepareImage(m, program);
            && Sane(m')
            && (ok <==> 1 <= |program| <= PAGE_SIZE && FramesNeeded(m) <= |m.free|)
            && (ok ==> ImageReadable(m', program))
            && (ok ==> exists code, stack :: code != stack && PrivateFrame(m', code) && PrivateFrame(m', stack)
                                             && Inv(m', ImageViews(v, code, stack)))
            && (!ok ==> Inv(m', v))
  {
    hide Inv, CreateSpace, AllocFrame, MapPage, Walk, CopyBytes, ImageReadable;
    var m1 := CreateSpace(m).0;
    CreateKeeps(m, v);
    SpaceCreated(m, v);
    ImageFrames(m, v);
    var (m2, code) := AllocFrame(m1);
    var (m3, stack) := AllocFrame(m2);
    if CreateSpace(m).1 && code != 0 && stack != 0 && 1 <= |program| <= PAGE_SIZE {
      var m4 := m3.(mem := m3.mem[code := CopyBytes(m3.mem[code], program)]);
      CopyKeeps(m3, v, code, CopyBytes(m3.mem[code], program));
      assert Pointers(m4) == Pointers(m3);
      MapImage(m4, v, code, stack);
      var (m5, codeMapped) := MapPage(m4, Space, USER_BASE, code * PAGE_SIZE);
      if codeMapped {
        var m6 := MapPage(m5, Space, STACK_PAGE, stack * PAGE_SIZE).0;
        ImageReads(m6, v, code, stack, program);
      } else {
        MapKeeps(m4, v, Space, USER_BASE, code * PAGE_SIZE);
      }
    }
  }

  lemma SpaceCreated(m: Machine, v: Views)
    requires Inv(m, v) && Sane(m)
    ensures var (m1, created) := CreateSpace(m);
            && (m.spaceReady ==> m1 == m)
            && (!m.spaceReady && created ==> |m1.free| == |m.free| - 2 && Missing(m1.space) == 2)
  {
  }

  class Process {
    const paging: PagingUnit
    var prepared: bool
    var entryAddress: Word
    var stackAddress: Word

    constructor (paging: PagingUnit)
      ensures this.paging == paging && !prepared
    {
      this.paging := paging;
      prepared, entryAddress, stackAddress := false, 0, 0;
    }

    method Prepare(program: seq<Byte>)
      requires paging.Valid()
      modifies this, paging, paging.allocator, paging.allocator.frames, paging.userSpace
      ensures paging.Valid()
      ensures old(prepared) ==> prepared && paging.State() == old(paging.State())
      ensures !old(prepared) ==> (paging.State(), prepared) == PrepareImage(old(paging.State()), program)
      ensures !old(prepared) && prepared ==> entryAddress == 0x4000_0000 && stackAddress == 0x4020_0000
    {
      hide Allocator.Valid, Allocator.Free, CreateSpace, AllocFrame, MapPage, CopyBytes;
      if prepared {
        return;
      }
      var space := paging.CreateAddressSpace();
      var code := paging.AllocPage();
      var stack := paging.AllocPage();
      if space == null || code == 0 || stack == 0 || |program| == 0 || |program| > PAGE_SIZE {
        return;
      }
      CopyProgram(code, program);
      var mapped := MapPages(space, code, stack);
      if !mapped {
        return;
      }
      entryAddress := USER_BASE;
      stackAddress := STACK_TOP;
      prepared := true;
    }

    // Maps the code page first and the stack page only after it.
    method MapPages(space: AddressSpace, code: nat, stack: nat) returns (ok: bool)
      requires paging.Valid() && space == paging.userSpace && paging.userSpaceReady
      requires code < FRAME_COUNT && stack < FRAME_COUNT
      modifies paging, paging.allocator, paging.allocator.frames, paging.userSpace
      ensures paging.Valid()
      ensures var (m, codeMapped) := MapPage(old(paging.State()), Space, USER_BASE, code * PAGE_SIZE);
              (paging.State(), ok) ==
              if codeMapped then MapPage(m, Space, STACK_PAGE, stack * PAGE_SIZE) else (m, false)
    {
      hide Allocator.Valid, Allocator.Free, MapPage;
      ok := paging.MapAddressSpacePage(space, USER_BASE, code * PAGE_SIZE);
      if ok {
        ok := paging.MapAddressSpacePage(space, STACK_PAGE, stack * PAGE_SIZE);
      }
    }

    // Copies the program byte by byte into its frame.
    method CopyProgram(code: nat, program: seq<Byte>)
      requires paging.Valid() && code < FRAME_COUNT && |program| <= PAGE_SIZE
      modifies paging.allocator.frames
      ensures paging.Valid()
      ensures paging.State() == old(paging.State()).(
                mem := old(paging.State()).mem[code := CopyBytes(old(paging.State()).mem[code], program)])
    {
      hide Allocator.Valid, Allocator.Free;
      var frames := paging.allocator.frames;
      for index := 0 to |program|
        invariant frames[..] == old(frames[..])[code := CopyBytes(old(frames[code]), program[..index])]
      {
        assert program[..index + 1][..index] == program[..index];
        frames[code] := SetFrameByte(frames[code], index, program[index]);
      }
      assert program[..|program|] == program;
    }
  }
}
