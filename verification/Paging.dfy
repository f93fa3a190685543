// The paging code over real, mutable tables. Each method is proved to do
// exactly one step of the page-table machine.
module Paging {
  import opened Bits
  import opened Frames
  import opened PageAllocator
  import opened PageTables

  const PAGE_DIRECTORY_COUNT := IDENTITY_MAPPED_LIMIT / (ENTRIES * LARGE_PAGE_SIZE)

  class AddressSpace {
    var pml4: nat
    var pdpt: nat
    var userDirectory: nat
    var userTable: nat

    constructor ()
      ensures pml4 == pdpt == userDirectory == userTable == 0
    {
      pml4, pdpt, userDirectory, userTable := 0, 0, 0, 0;
    }
  }

  class PagingUnit {
    const allocator: Allocator
    const userSpace: AddressSpace
    var ready: bool
    var tablePages: nat
    var runtimePdpt: nat
    var userDirectory: nat
    var userTable: nat
    var userSpaceReady: bool
    var nextUserPage: Word
    // The register that holds the active root.
    var cr3: nat
    // Locals of initialisation, remembered for the specification.
    ghost var runtimePml4: nat
    ghost var identity: nat

    ghost function State(): Machine
      reads this, allocator, allocator.frames, allocator.regions, userSpace
      requires allocator.Valid()
    {
      Machine(allocator.frames[..], allocator.Free(), ready, tablePages, identity,
              Tree(runtimePml4, runtimePdpt, userDirectory, userTable), userSpaceReady,
              Tree(userSpace.pml4, userSpace.pdpt, userSpace.userDirectory, userSpace.userTable),
              nextUserPage, cr3)
    }

    ghost predicate Valid()
      reads this, allocator, allocator.frames, allocator.regions, userSpace
    {
      allocator.Valid() && allocator.frames.Length == FRAME_COUNT && Sane(State())
    }

    // The statics start out cleared; initialisation then builds the runtime
    // root, or returns early with `ready` still false.
    constructor (allocator: Allocator, bootRoot: nat)
      requires allocator.Valid() && bootRoot < FRAME_COUNT
      modifies allocator, allocator.frames
      ensures Valid() && this.allocator == allocator && fresh(userSpace)
      ensures FramesInRange(old(allocator.Free()))
      ensures State() == Init(old(allocator.frames[..]), old(allocator.Free()), bootRoot)
    {
      hide Init, CursorAfter, AllFrames, AllWellFormed;
      this.allocator := allocator;
      var space := new AddressSpace();
      this.userSpace := space;
      ready, tablePages, runtimePdpt, userDirectory, userTable := false, 0, 0, 0, 0;
      userSpaceReady, nextUserPage, cr3 := false, USER_BASE, bootRoot;
      runtimePml4, identity := 0, 0;
      new;
      allocator.FreeInRange();
      Initialise();
    }

    method Initialise()
      requires Valid()
      requires State() == Machine(allocator.frames[..], allocator.Free(), false, 0, 0, NO_TREE, false, NO_TREE,
                                  USER_BASE, cr3)
      modifies this, allocator, allocator.frames
      ensures Valid()
      ensures State() == Init(old(allocator.frames[..]), old(allocator.Free()), old(cr3))
    {
      hide Allocator.Valid, Allocator.Free, AllocFrame, RootLinked, IdentityLinked;
      var pml4 := AllocPage();
      var pdpt := AllocPage();
      if pml4 == 0 || pdpt == 0 {
        return;
      }
      InstallRoot(pml4, pdpt);
      var installed := InstallDirectories();
      if !installed {
        return;
      }
      cr3 := pml4;
      ready := true;
    }

    method InstallRoot(pml4: nat, pdpt: nat)
      requires Valid() && pml4 < FRAME_COUNT && pdpt < FRAME_COUNT
      modifies this, allocator.frames
      ensures Valid() && State() == RootLinked(old(State()), pml4, pdpt)
    {
      hide Allocator.Valid, Allocator.Free;
      tablePages := 2;
      runtimePdpt := pdpt;
      runtimePml4 := pml4;
      StoreEntry(pml4, 0, TableEntry(pdpt));
    }

    method InstallDirectories() returns (ok: bool)
      requires Valid()
      modifies this, allocator, allocator.frames
      ensures Valid()
      ensures ok <==> AllocFrame(old(State())).1 != 0
      ensures var (m, directory) := AllocFrame(old(State()));
              State() == if ok then IdentityLinked(m, directory) else m
    {
      hide Allocator.Valid, Allocator.Free, AllocFrame, StoreWord, IdentityLinked;
      ghost var rooted := State();
      for directoryIndex := 0 to PAGE_DIRECTORY_COUNT
        invariant Valid()
        invariant directoryIndex == 0 ==> State() == rooted
        invariant directoryIndex == 1 ==>
            && AllocFrame(rooted).1 != 0
            && State() == IdentityLinked(AllocFrame(rooted).0, AllocFrame(rooted).1)
      {
        ok := InstallDirectory(directoryIndex);
        if !ok {
          return;
        }
      }
      return true;
    }

    // The body of the directory loop: allocate, count, link and fill one directory.
    method InstallDirectory(directoryIndex: nat) returns (ok: bool)
      requires Valid() && directoryIndex == 0
      modifies this, allocator, allocator.frames
      ensures Valid()
      ensures ok <==> AllocFrame(old(State())).1 != 0
      ensures var (m, directory) := AllocFrame(old(State()));
              State() == if ok then IdentityLinked(m, directory) else m
    {
      hide Allocator.Valid, Allocator.Free, AllocFrame, StoreWord;
      var directory := AllocPage();
      if directory == 0 {
        return false;
      }
      tablePages := tablePages + 1;
      identity := directory;
      StoreEntry(runtimePdpt, directoryIndex, TableEntry(directory));
      FillIdentity(directory, directoryIndex);
      return true;
    }

    method FillIdentity(directory: nat, directoryIndex: nat)
      requires Valid() && directory < FRAME_COUNT && directoryIndex == 0
      modifies allocator.frames
      ensures Valid()
      ensures State() == old(State()).(mem := old(State()).mem[directory := IdentityDirectory()])
    {
      hide Allocator.Valid, Allocator.Free, LargeEntry;
      for entryIndex := 0 to ENTRIES
        invariant Valid()
        invariant State() == old(State()).(mem := old(State()).mem[directory := allocator.frames[directory]])
        invariant forall i :: 0 <= i < entryIndex ==>
            allocator.frames[directory][i] == LargeEntry(i * LARGE_PAGE_SIZE)
      {
        var physicalAddress := (directoryIndex * ENTRIES + entryIndex) * LARGE_PAGE_SIZE;
        StoreEntry(directory, entryIndex, LargeEntry(physicalAddress));
      }
      assert allocator.frames[directory] == IdentityDirectory();
    }

    // A pointer from the page allocator, as a frame number.
    method AllocPage() returns (frame: nat)
      requires Valid()
      modifies allocator, allocator.frames
      ensures Valid() && (State(), frame) == AllocFrame(old(State())) && frame < FRAME_COUNT
      ensures State() == old(State()).(mem := State().mem, free := State().free)
    {
      hide Allocator.Valid, Allocator.Free;
      ghost var before := State();
      var page := allocator.AllocPage();
      frame := page / PAGE_SIZE;
      if page != 0 {
        assert before.free[1..] == allocator.Free();
      }
    }

    method StoreEntry(frame: nat, index: nat, entry: Word)
      requires Valid() && frame < FRAME_COUNT && index < ENTRIES
      modifies allocator.frames
      ensures Valid()
      ensures State() == old(State()).(mem := StoreWord(old(State()).mem, frame, index, entry))
    {
      allocator.frames[frame] := allocator.frames[frame][index := entry];
      assert allocator.frames[..] == StoreWord(old(State()).mem, frame, index, entry);
    }

    // The first and second blocks of the map calls: a missing user directory or
    // user table is allocated, counted and linked.
    method LinkUserDirectory() returns (ok: bool)
      requires Valid()
      modifies this, allocator, allocator.frames
      ensures Valid() && (State(), ok) == NeedDirectory(old(State()), Kernel)
    {
      hide Allocator.Valid, Allocator.Free;
      if userDirectory == 0 {
        userDirectory := AllocPage();
        if userDirectory == 0 {
          return false;
        }
        tablePages := tablePages + 1;
        StoreEntry(runtimePdpt, 1, UserEntry(userDirectory * PAGE_SIZE));
      }
      return true;
    }

    method LinkUserTable() returns (ok: bool)
      requires Valid()
      modifies this, allocator, allocator.frames
      ensures Valid() && (State(), ok) == NeedTable(old(State()), Kernel)
    {
      hide Allocator.Valid, Allocator.Free;
      if userTable == 0 {
        userTable := AllocPage();
        if userTable == 0 {
          return false;
        }
        tablePages := tablePages + 1;
        StoreEntry(userDirectory, 0, UserEntry(userTable * PAGE_SIZE));
      }
      return true;
    }

    method MapUserPage(va: Word, pa: Word) returns (ok: bool)
      requires Valid()
      modifies this, allocator, allocator.frames
      ensures Valid() && (State(), ok) == MapPage(old(State()), Kernel, va, pa)
    {
      hide Allocator.Valid, Allocator.Free, And, NeedDirectory, NeedTable;
      if !ready || And(va, PAGE_SIZE - 1) != 0 || And(pa, PAGE_SIZE - 1) != 0 ||
         va < USER_BASE || va >= USER_BASE + USER_WINDOW_SIZE {
        return false;
      }
      ok := LinkUserDirectory();
      if !ok {
        return;
      }
      ok := LinkUserTable();
      if !ok {
        return;
      }
      var pageIndex := (va - USER_BASE) / PAGE_SIZE;
      assert Aligned(pa);
      StoreEntry(userTable, pageIndex, UserEntry(pa));
    }

    method CreateAddressSpace() returns (space: AddressSpace?)
      requires Valid()
      modifies this, allocator, allocator.frames, userSpace
      ensures Valid() && (State(), space != null) == CreateSpace(old(State()))
      ensures space != null ==> space == userSpace && userSpaceReady
    {
      hide Allocator.Valid, Allocator.Free, AllocFrame;
      if !ready || userSpaceReady {
        return if userSpaceReady then userSpace else null;
      }
      var pml4 := AllocPage();
      var pdpt := AllocPage();
      if pml4 == 0 || pdpt == 0 {
        return null;
      }
      InstallSpace(pml4, pdpt);
      return userSpace;
    }

    method InstallSpace(pml4: nat, pdpt: nat)
      requires Valid() && pml4 < FRAME_COUNT && pdpt < FRAME_COUNT
      modifies this, allocator.frames, userSpace
      ensures Valid() && State() == SpaceLinked(old(State()), pml4, pdpt)
    {
      hide Allocator.Valid, Allocator.Free, StoreWord, TableEntry;
      StoreEntry(pml4, 0, TableEntry(pdpt));
      StoreEntry(pdpt, 0, allocator.frames[runtimePdpt][0]);
      userSpace.pml4 := pml4;
      userSpace.pdpt := pdpt;
      userSpace.userDirectory := 0;
      userSpace.userTable := 0;
      userSpaceReady := true;
      tablePages := tablePages + 2;
    }

    method LinkSpaceDirectory() returns (ok: bool)
      requires Valid()
      modifies this, allocator, allocator.frames, userSpace
      ensures Valid() && (State(), ok) == NeedDirectory(old(State()), Space)
      ensures userSpaceReady == old(userSpaceReady)
    {
      hide Allocator.Valid, Allocator.Free;
      if userSpace.userDirectory == 0 {
        userSpace.userDirectory := AllocPage();
        if userSpace.userDirectory == 0 {
          return false;
        }
        tablePages := tablePages + 1;
        StoreEntry(userSpace.pdpt, 1, UserEntry(userSpace.userDirectory * PAGE_SIZE));
      }
      return true;
    }

    method LinkSpaceTable() returns (ok: bool)
      requires Valid()
      modifies this, allocator, allocator.frames, userSpace
      ensures Valid() && (State(), ok) == NeedTable(old(State()), Space)
      ensures userSpaceReady == old(userSpaceReady)
    {
      hide Allocator.Valid, Allocator.Free;
      if userSpace.userTable == 0 {
        userSpace.userTable := AllocPage();
        if userSpace.userTable == 0 {
          return false;
        }
        tablePages := tablePages + 1;
        StoreEntry(userSpace.userDirectory, 0, UserEntry(userSpace.userTable * PAGE_SIZE));
      }
      return true;
    }

    // The only pointer a caller can hold is the one CreateAddressSpace gave out.
    method MapAddressSpacePage(space: AddressSpace?, va: Word, pa: Word) returns (ok: bool)
      requires Valid()
      requires space == userSpace ==> userSpaceReady
      modifies this, allocator, allocator.frames, userSpace
      ensures Valid()
      ensures space == userSpace ==> (State(), ok) == MapPage(old(State()), Space, va, pa)
      ensures space != userSpace ==> (State(), ok) == (old(State()), false)
      ensures userSpaceReady == old(userSpaceReady)
    {
      hide Allocator.Valid, Allocator.Free, And, NeedDirectory, NeedTable;
      if space == null || space != userSpace || !ready ||
         And(va, PAGE_SIZE - 1) != 0 || And(pa, PAGE_SIZE - 1) != 0 ||
         va < USER_BASE || va >= USER_BASE + USER_WINDOW_SIZE {
        return false;
      }
      ok := LinkSpaceDirectory();
      if !ok {
        return;
      }
      ok := LinkSpaceTable();
      if !ok {
        return;
      }
      var pageIndex := (va - USER_BASE) / PAGE_SIZE;
      assert Aligned(pa);
      StoreEntry(userSpace.userTable, pageIndex, UserEntry(pa));
    }

    method SwitchAddressSpace(space: AddressSpace?) returns (ok: bool)
      requires Valid()
      requires space == userSpace ==> userSpaceReady
      requires space == null || space == userSpace
      modifies this
      ensures Valid()
      ensures ok ==> space == userSpace && (State(), true) == Step(old(State()), Switch)
      ensures !ok ==> State() == old(State()) && (space == null || userSpace.pml4 == 0 || !ready)
    {
      if space == null || space.pml4 == 0 || !ready {
        return false;
      }
      cr3 := space.pml4;
      return true;
    }

    // Returns the virtual address of a new page in the kernel's user window, or 0.
    method AllocUserPage() returns (va: Word)
      requires Valid()
      modifies this, allocator, allocator.frames
      ensures Valid() && (State(), va) == PageTables.AllocUserPage(old(State()))
    {
      hide Allocator.Valid, Allocator.Free, MapPage, And;
      var physical := AllocPage();
      if physical == 0 {
        return 0;
      }
      va := nextUserPage;
      MapKeepsNextUserPage(State(), Kernel, va, physical * PAGE_SIZE);
      var mapped := MapUserPage(va, physical * PAGE_SIZE);
      if !mapped {
        return 0;
      }
      nextUserPage := nextUserPage + PAGE_SIZE;
    }

    method TablePages() returns (n: nat)
      requires Valid()
      ensures n == State().tablePages
    {
      n := tablePages;
    }
  }
}
