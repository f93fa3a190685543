// What the page tables mean: each tree, walked as the processor walks it,
// translates exactly as an abstract view of it says.
module PagingInvariant {
  import opened Bits
  import opened Frames
  import opened PageTables

  const PHYSICAL_LIMIT := 0x10_0000_0000_0000

  /** The user window of a tree: page index to the physical address last given for it. */
  type View = map<nat, Word>

  datatype Views = Views(kernel: View, space: View)

  function ViewOf(v: Views, side: Side): View
  {
    if side == Kernel then v.kernel else v.space
  }

  /** The translation that a view stands for. */
  function Expected(view: View, va: Word): Translation
  {
    if va < 0x4000_0000 then To(va)
    else if va < 0x4020_0000 && PageIndex(va) in view
    then To(view[PageIndex(va)] % PHYSICAL_LIMIT + va % PAGE_SIZE)
    else Fault
  }

  // ---- Table contents ----

  function OneEntry(w: Word): Frame
  {
    ZeroFrame()[0 := w]
  }

  function Link(f: nat): Word
    requires f < FRAME_COUNT
  {
    if f == 0 then 0 else UserEntry(f * PAGE_SIZE)
  }

  predicate InMemory(t: Tree)
  {
    0 < t.pml4 < FRAME_COUNT && 0 < t.pdpt < FRAME_COUNT && t.directory < FRAME_COUNT && t.table < FRAME_COUNT
  }

  /** The tables above the user table hold exactly the links of the tree. */
  predicate Linked(mem: Memory, t: Tree, identity: nat)
  {
    && InMemory(t) && 0 < identity < FRAME_COUNT
    && mem[t.pml4] == OneEntry(TableEntry(t.pdpt))
    && mem[t.pdpt] == OneEntry(TableEntry(identity))[1 := Link(t.directory)]
    && mem[identity] == IdentityDirectory()
    && (t.directory != 0 ==> mem[t.directory] == OneEntry(Link(t.table)))
    && (t.directory == 0 ==> t.table == 0)
  }

  /** The user table holds exactly the view. */
  predicate Shows(mem: Memory, table: nat, view: View)
    requires table < FRAME_COUNT
  {
    && (forall i :: i in view ==> i < ENTRIES && view[i] % PAGE_SIZE == 0)
    && (table == 0 ==> view == map[])
    && (table != 0 ==> forall i :: 0 <= i < ENTRIES ==>
          mem[table][i] == if i in view then UserEntry(view[i]) else 0)
  }

  predicate TreeHolds(mem: Memory, t: Tree, identity: nat, view: View)
  {
    Linked(mem, t, identity) && Shows(mem, t.table, view)
  }

  // ---- Reading entries back ----

  lemma TableFlagsRead(f: nat, flags: nat)
    requires f < FRAME_COUNT && (flags == 3 || flags == 7)
    ensures var e := f * PAGE_SIZE + flags;
            Present(e) && !Large(e) && EntryFrame(e) == f
  {
    var e := f * PAGE_SIZE + flags;
    QuotientIs(e, 0x80, 32 * f, flags);
    QuotientIs(e, PAGE_SIZE, f, flags);
  }

  lemma LinkReads(f: nat)
    requires f < FRAME_COUNT
    ensures Present(TableEntry(f)) && !Large(TableEntry(f)) && EntryFrame(TableEntry(f)) == f
    ensures f != 0 ==> Present(Link(f)) && !Large(Link(f)) && EntryFrame(Link(f)) == f
    ensures !Present(0)
  {
    TableFlagsRead(f, 3);
    TableFlagsRead(f, 7);
  }

  lemma PageFlagsRead(pa: nat, e: nat)
    requires pa % PAGE_SIZE == 0 && e == pa + 7
    ensures Present(e) && e / PAGE_SIZE == pa / PAGE_SIZE
  {
  }

  // A page entry keeps bits 51:12 of the address it was given.
  lemma PageEntryReads(pa: Word)
    requires pa % PAGE_SIZE == 0
    ensures Present(UserEntry(pa)) && EntryFrame(UserEntry(pa)) * PAGE_SIZE == pa % PHYSICAL_LIMIT
  {
    hide Or, Present;
    PageFlagsRead(pa, UserEntry(pa));
    ScaleRemainder(pa / PAGE_SIZE, 0x100_0000_0000, PAGE_SIZE);
  }

  lemma LargeFlagsRead(i: nat, e: nat)
    requires i < ENTRIES && e == i * LARGE_PAGE_SIZE + 0x83
    ensures Present(e) && Large(e) && e / LARGE_PAGE_SIZE == i
  {
    QuotientIs(e, 0x80, i * 0x4000 + 1, 3);
    QuotientIs(e, LARGE_PAGE_SIZE, i, 0x83);
  }

  lemma LargeEntryReads(i: nat)
    requires i < ENTRIES
    ensures var e := LargeEntry(i * LARGE_PAGE_SIZE);
            Present(e) && Large(e) && e / LARGE_PAGE_SIZE % 0x8000_0000 == i
  {
    hide Present, Large, Or;
    LargeFlagsRead(i, LargeEntry(i * LARGE_PAGE_SIZE));
  }

  // ---- The walk agrees with the view ----

  lemma WalkIdentity(mem: Memory, t: Tree, identity: nat, va: Word)
    requires Linked(mem, t, identity) && va < IDENTITY_MAPPED_LIMIT
    ensures WalkDirectory(mem, identity, va) == To(va)
  {
    var i := va / LARGE_PAGE_SIZE;
    LargeEntryReads(i);
    assert va == i * LARGE_PAGE_SIZE + va % LARGE_PAGE_SIZE;
  }

  lemma WalkWindow(mem: Memory, t: Tree, identity: nat, view: View, va: Word)
    requires TreeHolds(mem, t, identity, view) && t.directory != 0
    requires USER_BASE <= va < 2 * USER_BASE
    ensures WalkDirectory(mem, t.directory, va) == Expected(view, va)
  {
    LinkReads(t.table);
    var i := va / LARGE_PAGE_SIZE % ENTRIES;
    assert i == (va - USER_BASE) / LARGE_PAGE_SIZE;
    if i == 0 && t.table != 0 {
      assert va / PAGE_SIZE % ENTRIES == PageIndex(va);
      if PageIndex(va) in view {
        PageEntryReads(view[PageIndex(va)]);
      }
    }
  }

  lemma WalkPointers(mem: Memory, t: Tree, identity: nat, view: View, va: Word)
    requires TreeHolds(mem, t, identity, view) && va < 0x80_0000_0000
    ensures WalkDirectoryPointers(mem, t.pdpt, va) == Expected(view, va)
  {
    var i := va / 0x4000_0000 % ENTRIES;
    assert i == va / 0x4000_0000;
    if i == 0 {
      LinkReads(identity);
      assert mem[t.pdpt][i] == TableEntry(identity);
      WalkIdentity(mem, t, identity, va);
    } else if i == 1 {
      LinkReads(t.directory);
      assert mem[t.pdpt][i] == Link(t.directory);
      if t.directory != 0 {
        WalkWindow(mem, t, identity, view, va);
      }
    } else {
      LinkReads(0);
      assert mem[t.pdpt][i] == 0;
    }
  }

  lemma WalkIsExpected(mem: Memory, t: Tree, identity: nat, view: View, va: Word)
    requires TreeHolds(mem, t, identity, view)
    ensures Walk(mem, t.pml4, va) == Expected(view, va)
  {
    var i := va / 0x80_0000_0000 % ENTRIES;
    LinkReads(t.pdpt);
    if Canonical(va) {
      if i == 0 {
        assert va < 0x80_0000_0000;
        WalkPointers(mem, t, identity, view, va);
      } else {
        assert mem[t.pml4][i] == 0;
      }
    }
  }
}
