/** The kernel's page tables, as init_page fills them in physical memory, against the processor's two-level walk. */
module Paging {
  import opened MachineInt

  const PAGE_SIZE := 4096
  const NR_PDE := 1024
  const NR_PTE := 1024
  const PT_SIZE := 0x40_0000
  const KOFFSET := 0xC000_0000

  /** Physical memory in 32-bit words: the word at byte address a has index a / 4. */
  type Memory = seq<Word>

  function VaToPa(addr: Word): Word {
    (addr - KOFFSET) % TWO_32
  }

  /** (addr & 0xfffff000) | 0x7: the page frame, writable, for users, present. */
  function MakePde(addr: Word): Word {
    addr / PAGE_SIZE * PAGE_SIZE + 7
  }

  lemma AlignedPde(p: int, i: int)
    requires p % PAGE_SIZE == 0 && 0 <= p + i * PAGE_SIZE < TWO_32
    ensures MakePde(p + i * PAGE_SIZE) == p + i * PAGE_SIZE + 7
  {
  }

  lemma AlignedFrame(p: int)
    requires p % PAGE_SIZE == 0
    ensures p / PAGE_SIZE * NR_PTE == p / 4
    ensures p / PAGE_SIZE * PAGE_SIZE == p
  {
  }

  // ----- The processor's walk (section 5.2 of the Intel 80386 Programmer's Reference Manual)

  function Load(m: Memory, i: int): Word {
    if 0 <= i < |m| then m[i] else 0
  }

  predicate Present(entry: Word) {
    entry % 2 == 1
  }

  /** The word index at which the page that an entry or cr3 points to begins. */
  function FrameIndex(entry: Word): int {
    entry / PAGE_SIZE * NR_PTE
  }

  /** The physical address of va, or None for a page fault. */
  function Walk(m: Memory, cr3: Word, va: Word): Option<Word> {
    var pde := Load(m, FrameIndex(cr3) + va / PT_SIZE);
    if !Present(pde) then None
    else
      var pte := Load(m, FrameIndex(pde) + va / PAGE_SIZE % NR_PTE);
      if !Present(pte) then None else Some(pte / PAGE_SIZE * PAGE_SIZE + va % PAGE_SIZE)
  }

  // ----- What the tables hold

  /** What the linker and PHY_MEM promise: whole page tables, at most 1 GB, page-aligned arrays inside memory. */
  ghost predicate Layout(size: int, pdir: int, ptable: int, phyMem: int) {
    && 0 < phyMem <= 0x4000_0000 && phyMem % PT_SIZE == 0
    && 0 <= pdir && pdir % PAGE_SIZE == 0 && pdir / 4 + NR_PDE <= size
    && 0 <= ptable && ptable % PAGE_SIZE == 0 && ptable / 4 + phyMem / PAGE_SIZE <= size
    && (pdir / 4 + NR_PDE <= ptable / 4 || ptable / 4 + phyMem / PAGE_SIZE <= pdir / 4)
    && size * 4 <= TWO_32
  }

  function KernelPde(ptable: int, phyMem: int, i: int): int {
    var n := phyMem / PT_SIZE;
    if 0 <= i < n then ptable + i * PAGE_SIZE + 7
    else if KOFFSET / PT_SIZE <= i < KOFFSET / PT_SIZE + n then ptable + (i - KOFFSET / PT_SIZE) * PAGE_SIZE + 7
    else 0
  }

  function UserPde(ptable: int, phyMem: int, i: int): int {
    if i < KOFFSET / PT_SIZE then 0 else KernelPde(ptable, phyMem, i)
  }

  /** The entry for the k-th page of physical memory. */
  function PagePte(k: int): int {
    k * PAGE_SIZE + 7
  }

  ghost predicate KernelTables(m: Memory, pdir: int, ptable: int, phyMem: int) {
    && Layout(|m|, pdir, ptable, phyMem)
    && (forall i | pdir / 4 <= i < pdir / 4 + NR_PDE :: m[i] == KernelPde(ptable, phyMem, i - pdir / 4))
    && (forall i | ptable / 4 <= i < ptable / 4 + phyMem / PAGE_SIZE :: m[i] == PagePte(i - ptable / 4))
  }

  /** The user directory: the kernel's entries from KOFFSET up, and nothing below. */
  ghost predicate UserDirectory(m: Memory, updir: int, ptable: int, phyMem: int) {
    && 0 <= updir && updir % PAGE_SIZE == 0 && updir / 4 + NR_PDE <= |m|
    && forall i | updir / 4 <= i < updir / 4 + NR_PDE :: m[i] == UserPde(ptable, phyMem, i - updir / 4)
  }

  // ----- The code

  /** init_page up to the write of cr3, with PHY_MEM a parameter. */
  method InitPage(mem: array<Word>, kpdir: Word, kptable: Word, phyMem: int) returns (cr3: Word)
    requires Layout(mem.Length, VaToPa(kpdir), VaToPa(kptable), phyMem)
    modifies mem
    ensures KernelTables(mem[..], VaToPa(kpdir), VaToPa(kptable), phyMem) && cr3 == VaToPa(kpdir)
    ensures forall i | 0 <= i < mem.Length
              && !(VaToPa(kpdir) / 4 <= i < VaToPa(kpdir) / 4 + NR_PDE)
              && !(VaToPa(kptable) / 4 <= i < VaToPa(kptable) / 4 + phyMem / PAGE_SIZE) :: mem[i] == old(mem[i])
  {
    hide VaToPa, KernelPde;
    var pdir, ptable := VaToPa(kpdir), VaToPa(kptable);
    Memset(mem, pdir / 4, NR_PDE);
    ptable := FillDirectory(mem, pdir, ptable, phyMem);
    FillPages(mem, ptable / 4 - 1, phyMem);
    AlignedFrame(pdir);
    cr3 := pdir / PAGE_SIZE * PAGE_SIZE;
  }

  /** The second loop, from the last page down: it stores eax, moves edi down one entry and subtracts a page, while
      the result is not negative. */
  method FillPages(mem: array<Word>, last: int, phyMem: int)
    requires 0 < phyMem <= 0x4000_0000 && phyMem % PAGE_SIZE == 0
    requires 0 <= last - phyMem / PAGE_SIZE + 1 && last < mem.Length
    modifies mem
    ensures var first := last - phyMem / PAGE_SIZE + 1;
            && (forall i | first <= i <= last :: mem[i] == PagePte(i - first))
            && (forall i | 0 <= i < mem.Length && !(first <= i <= last) :: mem[i] == old(mem[i]))
  {
    ghost var first, k := last - phyMem / PAGE_SIZE + 1, phyMem / PAGE_SIZE - 1;
    var eax, edi := phyMem - PAGE_SIZE + 7, last;
    while true
      invariant 0 <= k && eax == PagePte(k) && edi == first + k <= last
      invariant forall i | first + k < i <= last :: mem[i] == PagePte(i - first)
      invariant forall i | 0 <= i < mem.Length && !(first + k < i <= last) :: mem[i] == old(mem[i])
      decreases k
    {
      mem[edi] := eax;
      edi := edi - 1;
      eax := eax - PAGE_SIZE;
      k := k - 1;
      if !(eax >= 0) {
        break;
      }
    }
  }

  /** The first loop: each page table is entered twice, and ptable ends past the last one. */
  method FillDirectory(mem: array<Word>, pdir: Word, ptable0: Word, phyMem: int) returns (ptable: int)
    requires Layout(mem.Length, pdir, ptable0, phyMem)
    requires forall i | pdir / 4 <= i < pdir / 4 + NR_PDE :: mem[i] == 0
    modifies mem
    ensures ptable == ptable0 + phyMem / PT_SIZE * PAGE_SIZE
    ensures forall i | pdir / 4 <= i < pdir / 4 + NR_PDE :: mem[i] == KernelPde(ptable0, phyMem, i - pdir / 4)
    ensures forall i | 0 <= i < mem.Length && !(pdir / 4 <= i < pdir / 4 + NR_PDE) :: mem[i] == old(mem[i])
  {
    ptable := ptable0;
    var base, idx := pdir / 4, 0;
    ghost var high := base + KOFFSET / PT_SIZE;
    while idx < phyMem / PT_SIZE
      invariant 0 <= idx <= phyMem / PT_SIZE && ptable == ptable0 + idx * PAGE_SIZE
      invariant forall i | base <= i < base + NR_PDE ::
                  mem[i] == if i < base + idx || high <= i < high + idx then KernelPde(ptable0, phyMem, i - base) else 0
      invariant forall i | 0 <= i < mem.Length && !(base <= i < base + NR_PDE) :: mem[i] == old(mem[i])
    {
      AlignedPde(ptable0, idx);
      mem[base + idx] := MakePde(ptable);
      mem[base + (idx + KOFFSET / PT_SIZE)] := MakePde(ptable);
      ptable := ptable + NR_PTE * 4;
      idx := idx + 1;
    }
  }

  /** init_mm: the entries from KOFFSET up are copied from the kernel's directory, the others cleared. */
  method InitMm(mem: array<Word>, kpdir: Word, updir: Word, ghost kptable: Word, phyMem: int) returns (ucr3: Word)
    requires KernelTables(mem[..], VaToPa(kpdir), VaToPa(kptable), phyMem)
    requires var u := VaToPa(updir);
             && u % PAGE_SIZE == 0 && u / 4 + NR_PDE <= mem.Length
             && (u + PAGE_SIZE <= VaToPa(kpdir) || VaToPa(kpdir) + PAGE_SIZE <= u)
             && (u / 4 + NR_PDE <= VaToPa(kptable) / 4 || VaToPa(kptable) / 4 + phyMem / PAGE_SIZE <= u / 4)
    modifies mem
    ensures KernelTables(mem[..], VaToPa(kpdir), VaToPa(kptable), phyMem)
    ensures UserDirectory(mem[..], VaToPa(updir), VaToPa(kptable), phyMem) && ucr3 == VaToPa(updir)
    ensures forall i | 0 <= i < mem.Length && !(VaToPa(updir) / 4 <= i < VaToPa(updir) / 4 + NR_PDE) ::
              mem[i] == old(mem[i])
  {
    hide VaToPa, KernelPde;
    ghost var before, p := mem[..], VaToPa(kptable);
    var u, k, high := VaToPa(updir), VaToPa(kpdir), KOFFSET / PT_SIZE;
    Memset(mem, u / 4, NR_PDE);
    Memcpy(mem, u / 4 + high, k / 4 + high, phyMem / PT_SIZE);
    assert forall i | 0 <= i < mem.Length && !(u / 4 <= i < u / 4 + NR_PDE) :: mem[i] == before[i];
    AlignedFrame(u);
    CopiedDirectory(before, mem[..], k, p, u, phyMem);
    ucr3 := u / PAGE_SIZE * PAGE_SIZE;
  }

  /** Clearing a directory and copying the entries from KOFFSET up makes it the user directory. */
  lemma CopiedDirectory(before: Memory, m: Memory, pdir: int, ptable: int, updir: int, phyMem: int)
    requires KernelTables(before, pdir, ptable, phyMem) && |m| == |before|
    requires 0 <= updir && updir % PAGE_SIZE == 0 && updir / 4 + NR_PDE <= |m|
    requires forall i | updir / 4 <= i < updir / 4 + NR_PDE ::
               m[i] == if 0 <= i - updir / 4 - KOFFSET / PT_SIZE < phyMem / PT_SIZE
                       then before[i - updir / 4 + pdir / 4] else 0
    ensures UserDirectory(m, updir, ptable, phyMem)
  {
  }

  method Memset(mem: array<Word>, at: nat, count: nat)
    requires at + count <= mem.Length
    modifies mem
    ensures forall i | 0 <= i < mem.Length :: mem[i] == if at <= i < at + count then 0 else old(mem[i])
  {
    forall i | at <= i < at + count {
      mem[i] := 0;
    }
  }

  method Memcpy(mem: array<Word>, to: nat, from: nat, count: nat)
    requires to + count <= mem.Length && from + count <= mem.Length
    requires to + count <= from || from + count <= to
    modifies mem
    ensures forall i | 0 <= i < mem.Length ::
              mem[i] == if to <= i < to + count then old(mem[i - to + from]) else old(mem[i])
  {
    forall i | to <= i < to + count {
      mem[i] := mem[i - to + from];
    }
  }

  // ----- What the tables mean

  /** The two indices that the walk takes from an address. */
  lemma WalkIndices(pa: int)
    requires pa >= 0
    ensures pa / PAGE_SIZE == pa / PT_SIZE * NR_PTE + pa / PAGE_SIZE % NR_PTE
    ensures pa / PAGE_SIZE * PAGE_SIZE + pa % PAGE_SIZE == pa
  {
  }

  lemma TableEntry(ptable: int, d: int)
    requires ptable % PAGE_SIZE == 0 && 0 <= ptable && 0 <= d
    ensures var pde := ptable + d * PAGE_SIZE + 7;
            pde / PAGE_SIZE * NR_PTE == ptable / 4 + d * NR_PTE && pde % 2 == 1
  {
    var q := ptable / PAGE_SIZE;
    assert ptable == q * PAGE_SIZE;
    assert (q + d) * PAGE_SIZE + 7 == ptable + d * PAGE_SIZE + 7;
    EntryOfPage(q + d);
  }

  /** From an entry for the page table of pa the walk arrives at the entry for the page of pa. */
  lemma WalkThroughTable(m: Memory, pdir: int, ptable: int, phyMem: int, pa: int)
    requires KernelTables(m, pdir, ptable, phyMem) && 0 <= pa < phyMem
    ensures var pde := ptable + pa / PT_SIZE * PAGE_SIZE + 7;
            && pde < TWO_32 && Present(pde)
            && Load(m, FrameIndex(pde) + pa / PAGE_SIZE % NR_PTE) == PagePte(pa / PAGE_SIZE)
  {
    hide PagePte;
    TableEntry(ptable, pa / PT_SIZE);
    WalkIndices(pa);
    assert m[ptable / 4 + pa / PAGE_SIZE] == PagePte(pa / PAGE_SIZE);
  }

  lemma EntryOfPage(k: int)
    requires k >= 0
    ensures PagePte(k) % 2 == 1 && PagePte(k) / PAGE_SIZE == k
  {
  }

  /** Moving an address up to KOFFSET changes its directory index by 768 and no other part of it. */
  lemma UpperHalf(pa: int)
    requires 0 <= pa
    ensures (pa + KOFFSET) / PT_SIZE == pa / PT_SIZE + KOFFSET / PT_SIZE
    ensures (pa + KOFFSET) / PAGE_SIZE % NR_PTE == pa / PAGE_SIZE % NR_PTE
    ensures (pa + KOFFSET) % PAGE_SIZE == pa % PAGE_SIZE
  {
    QuotientShift(pa, 768, PT_SIZE);
    QuotientShift(pa, 786432, PAGE_SIZE);
    RemainderShift(pa, 786432, PAGE_SIZE);
    RemainderShift(pa / PAGE_SIZE, 768, NR_PTE);
  }

  lemma DirectoryEntry(m: Memory, pdir: int, ptable: int, phyMem: int, va: Word, pa: int)
    requires KernelTables(m, pdir, ptable, phyMem) && 0 <= pa < phyMem && (va == pa || va == pa + KOFFSET)
    ensures Load(m, FrameIndex(pdir) + va / PT_SIZE) == ptable + pa / PT_SIZE * PAGE_SIZE + 7
  {
    if va != pa {
      UpperHalf(pa);
    }
    AlignedFrame(pdir);
    assert m[pdir / 4 + va / PT_SIZE] == KernelPde(ptable, phyMem, va / PT_SIZE);
  }

  lemma MappedPage(m: Memory, pdir: int, ptable: int, phyMem: int, va: Word, pa: int)
    requires KernelTables(m, pdir, ptable, phyMem) && 0 <= pa < phyMem && (va == pa || va == pa + KOFFSET)
    ensures Walk(m, pdir, va) == Some(pa)
  {
    hide KernelTables, PagePte;
    if va != pa {
      UpperHalf(pa);
    }
    DirectoryEntry(m, pdir, ptable, phyMem, va, pa);
    WalkThroughTable(m, pdir, ptable, phyMem, pa);
    EntryOfPage(pa / PAGE_SIZE);
    WalkIndices(pa);
  }

  lemma UnmappedPage(m: Memory, pdir: int, ptable: int, phyMem: int, va: Word)
    requires KernelTables(m, pdir, ptable, phyMem) && phyMem <= va && !(KOFFSET <= va < KOFFSET + phyMem)
    ensures Walk(m, pdir, va) == None
  {
    AlignedFrame(pdir);
    assert m[pdir / 4 + va / PT_SIZE] == KernelPde(ptable, phyMem, va / PT_SIZE);
    assert KernelPde(ptable, phyMem, va / PT_SIZE) == 0;
  }

  /** Under init_page's tables physical memory is mapped to itself and again from KOFFSET, and all else faults. */
  lemma KernelMapping(m: Memory, pdir: int, ptable: int, phyMem: int, va: Word)
    requires KernelTables(m, pdir, ptable, phyMem)
    ensures Walk(m, pdir, va) ==
            if va < phyMem then Some(va)
            else if KOFFSET <= va < KOFFSET + phyMem then Some(va - KOFFSET)
            else None
  {
    hide KernelTables, Walk;
    if va < phyMem {
      MappedPage(m, pdir, ptable, phyMem, va, va);
    } else if KOFFSET <= va < KOFFSET + phyMem {
      MappedPage(m, pdir, ptable, phyMem, va, va - KOFFSET);
    } else {
      UnmappedPage(m, pdir, ptable, phyMem, va);
    }
  }

  /** Under init_mm's directory user addresses fault and the kernel's upper half is the kernel's own. */
  lemma UserMapping(m: Memory, pdir: int, ptable: int, updir: int, phyMem: int, va: Word)
    requires KernelTables(m, pdir, ptable, phyMem) && UserDirectory(m, updir, ptable, phyMem) && updir < TWO_32
    ensures Walk(m, updir, va) == if va < KOFFSET then None else Walk(m, pdir, va)
  {
    hide KernelPde;
    var d := va / PT_SIZE;
    AlignedFrame(pdir);
    AlignedFrame(updir);
    assert m[pdir / 4 + d] == KernelPde(ptable, phyMem, d);
    assert m[updir / 4 + d] == UserPde(ptable, phyMem, d);
  }

  /** va_to_pa computes the physical address that the processor finds. */
  lemma VaToPaIsTheMapping(m: Memory, pdir: int, ptable: int, phyMem: int, va: Word)
    requires KernelTables(m, pdir, ptable, phyMem) && KOFFSET <= va < KOFFSET + phyMem
    ensures Walk(m, pdir, va) == Some(VaToPa(va))
  {
    hide KernelTables, Walk;
    AtMostOneGigabyte(m, pdir, ptable, phyMem);
    KernelMapping(m, pdir, ptable, phyMem, va);
  }

  lemma AtMostOneGigabyte(m: Memory, pdir: int, ptable: int, phyMem: int)
    requires KernelTables(m, pdir, ptable, phyMem)
    ensures 0 < phyMem <= 0x4000_0000
  {
  }

  /** The words that init_page leaves: a page table entry is the page's address with the three low bits set and no
      other, and a directory entry that is not 0 the address of a page table with the same bits. */
  lemma EntriesInNumbers(m: Memory, pdir: int, ptable: int, phyMem: int, k: nat, d: nat)
    requires KernelTables(m, pdir, ptable, phyMem) && k < phyMem / 4096 && d < 1024
    ensures m[ptable / 4 + k] == 4096 * k + 7
    ensures m[pdir / 4 + d] == if d % 768 < phyMem / 0x40_0000 then ptable + 4096 * (d % 768) + 7 else 0
  {
    assert m[ptable / 4 + k] == PagePte(k);
    assert m[pdir / 4 + d] == KernelPde(ptable, phyMem, d);
    assert d % 768 == if d < 768 then d else d - 768;
  }

  // ----- Who may read and write (section 6.4 of the same manual)

  /** The kernel may do anything; a user's access needs bit 2, and a user's write bit 1 as well. */
  predicate Allows(entry: Word, user: bool, write: bool) {
    user ==> entry / 4 % 2 == 1 && (write ==> entry / 2 % 2 == 1)
  }

  /** The walk for an access by the kernel or a user, to read or to write: both entries must be present and allow it. */
  function AccessWalk(m: Memory, cr3: Word, va: Word, user: bool, write: bool): Option<Word> {
    var pde := Load(m, FrameIndex(cr3) + va / PT_SIZE);
    if !Present(pde) || !Allows(pde, user, write) then None
    else
      var pte := Load(m, FrameIndex(pde) + va / PAGE_SIZE % NR_PTE);
      if !Present(pte) || !Allows(pte, user, write) then None
      else Some(pte / PAGE_SIZE * PAGE_SIZE + va % PAGE_SIZE)
  }

  lemma AccessIsWalk(m: Memory, cr3: Word, va: Word, user: bool, write: bool)
    ensures AccessWalk(m, cr3, va, user, write) == None || AccessWalk(m, cr3, va, user, write) == Walk(m, cr3, va)
  {
  }

  lemma OpenEntry(frame: int, entry: Word, user: bool, write: bool)
    requires frame % PAGE_SIZE == 0 && entry == frame + 7
    ensures Allows(entry, user, write)
  {
    var k := frame / PAGE_SIZE;
    assert frame == k * PAGE_SIZE;
    QuotientIs(entry, 1024 * k + 1, 4);
    RemainderIs(1024 * k + 1, 512 * k, 2);
    QuotientIs(entry, 2048 * k + 3, 2);
    RemainderIs(2048 * k + 3, 1024 * k + 1, 2);
  }

  lemma OpenPage(m: Memory, pdir: int, ptable: int, phyMem: int, va: Word, pa: int, user: bool, write: bool)
    requires KernelTables(m, pdir, ptable, phyMem) && 0 <= pa < phyMem && (va == pa || va == pa + KOFFSET)
    ensures AccessWalk(m, pdir, va, user, write) == Walk(m, pdir, va)
  {
    hide KernelTables, PagePte, Allows;
    if va != pa {
      UpperHalf(pa);
    }
    DirectoryEntry(m, pdir, ptable, phyMem, va, pa);
    WalkThroughTable(m, pdir, ptable, phyMem, pa);
    TableAligned(m, pdir, ptable, phyMem, pa / PT_SIZE);
    OpenEntry(ptable + pa / PT_SIZE * PAGE_SIZE, ptable + pa / PT_SIZE * PAGE_SIZE + 7, user, write);
    PageOpen(pa / PAGE_SIZE, Load(m, FrameIndex(ptable + pa / PT_SIZE * PAGE_SIZE + 7) + pa / PAGE_SIZE % NR_PTE),
             user, write);
  }

  lemma TableAligned(m: Memory, pdir: int, ptable: int, phyMem: int, d: int)
    requires KernelTables(m, pdir, ptable, phyMem)
    ensures (ptable + d * PAGE_SIZE) % PAGE_SIZE == 0
  {
    RemainderShift(ptable, d, PAGE_SIZE);
  }

  lemma PageOpen(k: int, entry: Word, user: bool, write: bool)
    requires entry == PagePte(k)
    ensures Allows(entry, user, write)
  {
    OpenEntry(k * PAGE_SIZE, entry, user, write);
  }

  /** Under init_page's tables the kernel and users may read and write every mapped address. */
  lemma KernelAccess(m: Memory, pdir: int, ptable: int, phyMem: int, va: Word, user: bool, write: bool)
    requires KernelTables(m, pdir, ptable, phyMem)
    ensures AccessWalk(m, pdir, va, user, write) ==
            if va < phyMem then Some(va)
            else if KOFFSET <= va < KOFFSET + phyMem then Some(va - KOFFSET)
            else None
  {
    hide Walk, AccessWalk;
    KernelMapping(m, pdir, ptable, phyMem, va);
    AccessIsWalk(m, pdir, va, user, write);
    if va < phyMem {
      OpenPage(m, pdir, ptable, phyMem, va, va, user, write);
    } else if KOFFSET <= va < KOFFSET + phyMem {
      OpenPage(m, pdir, ptable, phyMem, va, va - KOFFSET, user, write);
    }
  }

  /** Under init_mm's directory they may do so from KOFFSET up, and below every access faults. */
  lemma UserAccess(m: Memory, pdir: int, ptable: int, updir: int, phyMem: int, va: Word, user: bool, write: bool)
    requires KernelTables(m, pdir, ptable, phyMem) && UserDirectory(m, updir, ptable, phyMem) && updir < TWO_32
    ensures AccessWalk(m, updir, va, user, write) ==
            if KOFFSET <= va < KOFFSET + phyMem then Some(va - KOFFSET) else None
  {
    hide KernelPde, Allows;
    KernelAccess(m, pdir, ptable, phyMem, va, user, write);
    var d := va / PT_SIZE;
    AlignedFrame(pdir);
    AlignedFrame(updir);
    assert m[pdir / 4 + d] == KernelPde(ptable, phyMem, d);
    assert m[updir / 4 + d] == UserPde(ptable, phyMem, d);
  }
}
