// Page tables as values: the entries the kernel writes, the processor's walk,
// and the page-table operations as steps on the machine state.
module PageTables {
  import opened Bits
  import opened Frames

  const PRESENT := 0x001
  const WRITABLE := 0x002
  const USER := 0x004
  const LARGE := 0x080
  const LARGE_PAGE_SIZE := 0x20_0000
  const USER_BASE := 0x4000_0000
  const USER_WINDOW_SIZE := 0x20_0000
  const CANONICAL_HALF := 0x8000_0000_0000

  // ---- Entries ----

  /** `address & (PAGE_SIZE - 1) == 0`. */
  predicate Aligned(address: Word): (r: bool)
    ensures r <==> address % PAGE_SIZE == 0
  {
    WordMask(address);
    And(address, PAGE_SIZE - 1) == 0
  }

  lemma LowFlagsAdd(a: nat)
    requires a % PAGE_SIZE == 0
    ensures Or(Or(a, PRESENT), WRITABLE) == a + 3
    ensures Or(a + 3, USER) == a + 7
  {
    assert Pow2(0) == 1 && Pow2(1) == 2 && Pow2(2) == 4;
    OrSetsClearBit(a, 0);
    OrSetsClearBit(a + 1, 1);
    OrSetsClearBit(a + 3, 2);
  }

  lemma LargeFlagAdds(a: nat)
    requires a % PAGE_SIZE == 0
    ensures Or(a + 3, LARGE) == a + 0x83
  {
    assert Pow2(7) == 0x80;
    assert (a + 3) / 0x80 == 32 * (a / PAGE_SIZE);
    OrSetsClearBit(a + 3, 7);
  }

  /** `page_address(table) | PRESENT | WRITABLE`. */
  function TableEntry(frame: nat): (e: Word)
    requires frame < FRAME_COUNT
    ensures e == frame * PAGE_SIZE + 3
  {
    LowFlagsAdd(frame * PAGE_SIZE);
    Or(Or(frame * PAGE_SIZE, PRESENT), WRITABLE)
  }

  /** `physical_address | PRESENT | WRITABLE | USER`. */
  function UserEntry(address: Word): (e: Word)
    requires address % PAGE_SIZE == 0
    ensures e == address + 7
  {
    LowFlagsAdd(address);
    Or(Or(Or(address, PRESENT), WRITABLE), USER)
  }

  /** `physical_address | PRESENT | WRITABLE | LARGE`. */
  function LargeEntry(address: nat): (e: Word)
    requires address % PAGE_SIZE == 0 && address < IDENTITY_MAPPED_LIMIT
    ensures e == address + 0x83
  {
    LowFlagsAdd(address);
    LargeFlagAdds(address);
    Or(Or(Or(address, PRESENT), WRITABLE), LARGE)
  }

  /** The page directory that maps the first gigabyte onto itself. */
  function IdentityDirectory(): (d: Frame)
    ensures forall i :: 0 <= i < ENTRIES ==> d[i] == LargeEntry(i * LARGE_PAGE_SIZE)
  {
    seq(ENTRIES, i requires 0 <= i < ENTRIES => LargeEntry(i * LARGE_PAGE_SIZE))
  }

  // ---- The processor's walk: 4-level paging ----

  predicate Present(e: nat) { e % 2 == 1 }
  predicate Large(e: nat) { e / 0x80 % 2 == 1 }

  // Bits 51:12 of an entry.
  function EntryFrame(e: Word): nat { e / PAGE_SIZE % 0x100_0000_0000 }

  /** A page fault, a table beyond the modelled memory, or a physical address. */
  datatype Translation = Fault | Outside | To(address: nat)

  predicate Canonical(va: Word) { va < CANONICAL_HALF || va >= WORD_LIMIT - CANONICAL_HALF }

  function Walk(mem: Memory, root: nat, va: Word): Translation
    requires root < FRAME_COUNT
  {
    if !Canonical(va) then Fault else
    var e := mem[root][va / 0x80_0000_0000 % ENTRIES];
    if !Present(e) || Large(e) then Fault
    else if EntryFrame(e) >= FRAME_COUNT then Outside
    else WalkDirectoryPointers(mem, EntryFrame(e), va)
  }

  function WalkDirectoryPointers(mem: Memory, pdpt: nat, va: Word): Translation
    requires pdpt < FRAME_COUNT
  {
    var e := mem[pdpt][va / 0x4000_0000 % ENTRIES];
    if !Present(e) then Fault
    else if Large(e) then To(e / 0x4000_0000 % 0x40_0000 * 0x4000_0000 + va % 0x4000_0000)
    else if EntryFrame(e) >= FRAME_COUNT then Outside
    else WalkDirectory(mem, EntryFrame(e), va)
  }

  function WalkDirectory(mem: Memory, directory: nat, va: Word): Translation
    requires directory < FRAME_COUNT
  {
    var e := mem[directory][va / LARGE_PAGE_SIZE % ENTRIES];
    if !Present(e) then Fault
    else if Large(e) then To(e / LARGE_PAGE_SIZE % 0x8000_0000 * LARGE_PAGE_SIZE + va % LARGE_PAGE_SIZE)
    else if EntryFrame(e) >= FRAME_COUNT then Outside
    else WalkTable(mem, EntryFrame(e), va)
  }

  function WalkTable(mem: Memory, table: nat, va: Word): Translation
    requires table < FRAME_COUNT
  {
    var e := mem[table][va / PAGE_SIZE % ENTRIES];
    if !Present(e) then Fault else To(EntryFrame(e) * PAGE_SIZE + va % PAGE_SIZE)
  }

  // ---- The machine ----

  // Tables are named by frame number; frame 0 is the null pointer.
  datatype Tree = Tree(pml4: nat, pdpt: nat, directory: nat, table: nat)

  const NO_TREE := Tree(0, 0, 0, 0)

  /** The kernel's boot tree and the one user address space. */
  datatype Side = Kernel | Space

  // `free` lists the frames the allocator will still hand out. `identity` and
  // the kernel root are the frames that initialisation holds in locals.
  datatype Machine = Machine(
    mem: Memory, free: seq<nat>, ready: bool, tablePages: nat, identity: nat,
    kernel: Tree, spaceReady: bool, space: Tree, nextUserPage: Word, cr3: nat)

  function TreeOf(m: Machine, side: Side): Tree
  {
    if side == Kernel then m.kernel else m.space
  }

  function WithTree(m: Machine, side: Side, t: Tree): Machine
  {
    if side == Kernel then m.(kernel := t) else m.(space := t)
  }

  function StoreWord(mem: Memory, f: nat, i: nat, w: Word): Memory
    requires f < FRAME_COUNT && i < ENTRIES
  {
    var frame: Frame := mem[f][i := w];
    mem[f := frame]
  }

  predicate FramesInRange(free: seq<nat>)
  {
    forall i :: 0 <= i < |free| ==> 0 < free[i] < FRAME_COUNT
  }

  /** Takes the next free frame, zeroed; 0 when there is none. */
  function AllocFrame(m: Machine): (r: (Machine, nat))
    requires FramesInRange(m.free)
    ensures r.1 < FRAME_COUNT && r.0 == m.(mem := r.0.mem, free := r.0.free)
    ensures FramesInRange(r.0.free)
  {
    if m.free == [] then (m, 0)
    else (m.(mem := m.mem[m.free[0] := ZeroFrame()], free := m.free[1..]), m.free[0])
  }

  /** What the operations need of a state to be defined at all. */
  predicate Sane(m: Machine)
  {
    && FramesInRange(m.free)
    && m.kernel.pml4 < FRAME_COUNT && m.kernel.pdpt < FRAME_COUNT
    && m.kernel.directory < FRAME_COUNT && m.kernel.table < FRAME_COUNT
    && m.space.pml4 < FRAME_COUNT && m.space.pdpt < FRAME_COUNT
    && m.space.directory < FRAME_COUNT && m.space.table < FRAME_COUNT
    && m.identity < FRAME_COUNT && m.cr3 < FRAME_COUNT
    && m.nextUserPage <= USER_BASE + USER_WINDOW_SIZE
  }

  /** Initialisation: two root tables, then the single identity directory. */
  function Init(mem: Memory, free: seq<nat>, cr3: nat): (m: Machine)
    requires FramesInRange(free) && cr3 < FRAME_COUNT
  {
    var m0 := Machine(mem, free, false, 0, 0, NO_TREE, false, NO_TREE, USER_BASE, cr3);
    var (m1, pml4) := AllocFrame(m0);
    var (m2, pdpt) := AllocFrame(m1);
    if pml4 == 0 || pdpt == 0 then m2
    else
      var m3 := RootLinked(m2, pml4, pdpt);
      var (m4, directory) := AllocFrame(m3);
      if directory == 0 then m4
      else IdentityLinked(m4, directory).(cr3 := pml4, ready := true)
  }

  /** The machine once the kernel root points to its directory-pointer table. */
  function RootLinked(m: Machine, pml4: nat, pdpt: nat): Machine
    requires pml4 < FRAME_COUNT && pdpt < FRAME_COUNT
  {
    m.(tablePages := 2, kernel := m.kernel.(pml4 := pml4, pdpt := pdpt),
       mem := StoreWord(m.mem, pml4, 0, TableEntry(pdpt)))
  }

  /** The machine once the identity directory is linked below the kernel root and filled. */
  function IdentityLinked(m: Machine, directory: nat): Machine
    requires m.kernel.pdpt < FRAME_COUNT && directory < FRAME_COUNT
  {
    var linked := StoreWord(m.mem, m.kernel.pdpt, 0, TableEntry(directory));
    m.(tablePages := m.tablePages + 1, identity := directory, mem := linked[directory := IdentityDirectory()])
  }

  predicate InWindow(va: Word)
  {
    USER_BASE <= va < USER_BASE + USER_WINDOW_SIZE
  }

  function PageIndex(va: Word): nat
    requires USER_BASE <= va
  {
    (va - USER_BASE) / PAGE_SIZE
  }

  /** Allocates and links the user directory of a tree unless it has one. */
  function NeedDirectory(m: Machine, side: Side): (r: (Machine, bool))
    requires Sane(m)
    ensures Sane(r.0)
  {
    var t := TreeOf(m, side);
    if t.directory != 0 then (m, true)
    else
      var (m', f) := AllocFrame(m);
      if f == 0 then (m', false)
      else (WithTree(m'.(tablePages := m'.tablePages + 1,
                         mem := StoreWord(m'.mem, t.pdpt, 1, UserEntry(f * PAGE_SIZE))),
                     side, t.(directory := f)), true)
  }

  /** Allocates and links the user table of a tree unless it has one. */
  function NeedTable(m: Machine, side: Side): (r: (Machine, bool))
    requires Sane(m)
    ensures Sane(r.0)
  {
    var t := TreeOf(m, side);
    if t.table != 0 then (m, true)
    else
      var (m', f) := AllocFrame(m);
      if f == 0 then (m', false)
      else (WithTree(m'.(tablePages := m'.tablePages + 1,
                         mem := StoreWord(m'.mem, t.directory, 0, UserEntry(f * PAGE_SIZE))),
                     side, t.(table := f)), true)
  }

  /** Mapping one page into a tree; `false` when refused or out of frames. */
  function MapPage(m: Machine, side: Side, va: Word, pa: Word): (r: (Machine, bool))
    requires Sane(m)
    ensures Sane(r.0)
  {
    if !m.ready || !Aligned(va) || !Aligned(pa) || !InWindow(va) then (m, false)
    else
      var (m1, linked) := NeedDirectory(m, side);
      if !linked then (m1, false)
      else
        var (m2, ok) := NeedTable(m1, side);
        if !ok then (m2, false)
        else (m2.(mem := StoreWord(m2.mem, TreeOf(m2, side).table, PageIndex(va), UserEntry(pa))), true)
  }

  lemma MapKeepsNextUserPage(m: Machine, side: Side, va: Word, pa: Word)
    requires Sane(m)
    ensures MapPage(m, side, va, pa).0.nextUserPage == m.nextUserPage
    ensures MapPage(m, side, va, pa).1 ==> va % PAGE_SIZE == 0 && InWindow(va)
  {
  }

  function CreateSpace(m: Machine): (r: (Machine, bool))
    requires Sane(m)
    ensures Sane(r.0)
  {
    if !m.ready || m.spaceReady then (m, m.spaceReady)
    else
      var (m1, pml4) := AllocFrame(m);
      var (m2, pdpt) := AllocFrame(m1);
      if pml4 == 0 || pdpt == 0 then (m2, false)
      else
        (SpaceLinked(m2, pml4, pdpt), true)
  }

  /** The machine once the address space has its root and shares the identity directory. */
  function SpaceLinked(m: Machine, pml4: nat, pdpt: nat): (m': Machine)
    requires Sane(m) && pml4 < FRAME_COUNT && pdpt < FRAME_COUNT
    ensures Sane(m')
  {
    var rooted := StoreWord(m.mem, pml4, 0, TableEntry(pdpt));
    m.(mem := StoreWord(rooted, pdpt, 0, rooted[m.kernel.pdpt][0]),
       space := Tree(pml4, pdpt, 0, 0), spaceReady := true, tablePages := m.tablePages + 2)
  }

  function AllocUserPage(m: Machine): (Machine, nat)
    requires Sane(m)
  {
    var (m1, f) := AllocFrame(m);
    if f == 0 then (m1, 0)
    else
      var (m2, ok) := MapPage(m1, Kernel, m1.nextUserPage, f * PAGE_SIZE);
      if !ok then (m2, 0)
      else (m2.(nextUserPage := m.nextUserPage + PAGE_SIZE), m.nextUserPage)
  }

  // What can happen after initialisation. `Store` is a store by the rest of
  // the kernel to a frame that is not a page table.
  datatype Op =
    | AllocPage
    | MapKernel(va: Word, pa: Word)
    | Create
    | MapSpace(va: Word, pa: Word)
    | Switch
    | UserPage
    | Store(frame: nat, index: nat, value: Word)

  /** The table pointers of both trees, with the shared directory once. */
  function Pointers(m: Machine): (ps: seq<nat>)
    ensures |ps| == 9
  {
    [m.kernel.pml4, m.kernel.pdpt, m.identity, m.kernel.directory, m.kernel.table,
     m.space.pml4, m.space.pdpt, m.space.directory, m.space.table]
  }

  /** One operation; the flag is its success. */
  function Step(m: Machine, op: Op): (Machine, bool)
    requires Sane(m)
  {
    match op
    case AllocPage => var (m', f) := AllocFrame(m); (m', f != 0)
    case MapKernel(va, pa) => MapPage(m, Kernel, va, pa)
    case Create => CreateSpace(m)
    case MapSpace(va, pa) => if m.spaceReady then MapPage(m, Space, va, pa) else (m, false)
    case Switch => if m.ready && m.spaceReady then (m.(cr3 := m.space.pml4), true) else (m, false)
    case UserPage => var (m', va) := AllocUserPage(m); (m', va != 0)
    case Store(f, i, w) =>
      if f < FRAME_COUNT && i < ENTRIES && f !in Pointers(m)
      then (m.(mem := StoreWord(m.mem, f, i, w)), true) else (m, false)
  }
}
