/** The kernel's ELF loader, with IA32_PAGE and HAS_DEVICE off: the ramdisk, the header buffer on the stack and the
    loaded segments all lie in one physical memory. */
module Loader {
  import opened MachineInt

  type Byte = x: int | 0 <= x < 256

  type Bytes = seq<Byte>

  const RAMDISK_SIZE := 0xA_0000
  const BUF_SIZE := 4096
  const PHDR_SIZE := 32
  const ELF_MAGIC := 0x464C_457F
  const PT_LOAD := 1

  /** A program header (System V ABI, chapter 5). */
  datatype Phdr = Phdr(ptype: Word, offset: Word, vaddr: Word, filesz: Word, memsz: Word)

  // ----- Reading the file

  function ByteAt(b: Bytes, a: int): nat {
    if 0 <= a < |b| then b[a] else 0
  }

  /** Little-endian, as the processor reads it. */
  function U16(b: Bytes, a: int): nat {
    ByteAt(b, a) + 0x100 * ByteAt(b, a + 1)
  }

  function U32(b: Bytes, a: int): Word {
    U16(b, a) + 0x1_0000 * U16(b, a + 2)
  }

  function Magic(b: Bytes): Word { U32(b, 0) }
  function Entry(b: Bytes): Word { U32(b, 24) }
  function PhOff(b: Bytes): Word { U32(b, 28) }
  function PhNum(b: Bytes): nat { U16(b, 44) }

  function PhdrAt(b: Bytes, a: int): Phdr {
    Phdr(U32(b, a), U32(b, a + 4), U32(b, a + 8), U32(b, a + 16), U32(b, a + 20))
  }

  /** The i-th program header of the file. */
  function HeaderOf(b: Bytes, i: nat): Phdr {
    PhdrAt(b, PhOff(b) + PHDR_SIZE * i)
  }

  // ----- The layout of the file, written byte by byte (System V ABI, chapters 4 and 5)

  function Bytes2(w: int): Bytes
    requires 0 <= w < 0x1_0000
  {
    [w % 256, w / 256]
  }

  function Bytes4(w: Word): Bytes {
    [w % 256, w / 0x100 % 256, w / 0x1_0000 % 256, w / 0x100_0000]
  }

  type Half = x: int | 0 <= x < 0x1_0000

  /** The fields of the file header after its 16 bytes of identification. */
  datatype Ehdr = Ehdr(etype: Half, machine: Half, version: Word, entry: Word, phoff: Word, shoff: Word, flags: Word,
                       ehsize: Half, phentsize: Half, phnum: Half, shentsize: Half, shnum: Half, shstrndx: Half)

  function FileHeader(ident: Bytes, e: Ehdr): (b: Bytes)
    requires |ident| == 16
    ensures |b| == 52
  {
    ident + Bytes2(e.etype) + Bytes2(e.machine) + Bytes4(e.version) + Bytes4(e.entry) + Bytes4(e.phoff)
    + Bytes4(e.shoff) + Bytes4(e.flags) + Bytes2(e.ehsize) + Bytes2(e.phentsize) + Bytes2(e.phnum)
    + Bytes2(e.shentsize) + Bytes2(e.shnum) + Bytes2(e.shstrndx)
  }

  /** A program header as it stands in the file, with the fields that the loader does not read. */
  datatype FullPhdr = FullPhdr(h: Phdr, paddr: Word, flags: Word, align: Word)

  /** The eight words of a program header: p_type, p_offset, p_vaddr, p_paddr, p_filesz, p_memsz, p_flags, p_align. */
  function ProgramHeader(p: FullPhdr): (b: Bytes)
    ensures |b| == 32
  {
    Bytes4(p.h.ptype) + Bytes4(p.h.offset) + Bytes4(p.h.vaddr) + Bytes4(p.paddr)
    + Bytes4(p.h.filesz) + Bytes4(p.h.memsz) + Bytes4(p.flags) + Bytes4(p.align)
  }

  /** The bytes w stand in b from a on. */
  predicate StandsAt(b: Bytes, a: int, w: Bytes) {
    0 <= a && a + |w| <= |b| && b[a..a + |w|] == w
  }

  lemma StandsApart(b: Bytes, a: int, v: Bytes, w: Bytes)
    requires StandsAt(b, a, v + w)
    ensures StandsAt(b, a, v) && StandsAt(b, a + |v|, w)
  {
    var s := b[a..a + |v + w|];
    assert s[..|v|] == v && s[|v|..] == w;
    assert b[a..a + |v|] == s[..|v|] && b[a + |v|..a + |v| + |w|] == s[|v|..];
  }

  lemma FourBytes(w: Word)
    ensures w == w % 256 + 0x100 * (w / 0x100 % 256) + 0x1_0000 * (w / 0x1_0000 % 256) + 0x100_0000 * (w / 0x100_0000)
  {
  }

  lemma WordReadBack(b: Bytes, a: int, w: Word)
    requires StandsAt(b, a, Bytes4(w))
    ensures U32(b, a) == w
  {
    var s := b[a..a + 4];
    assert s[0] == b[a] && s[1] == b[a + 1] && s[2] == b[a + 2] && s[3] == b[a + 3];
    FourBytes(w);
  }

  lemma HalfReadBack(b: Bytes, a: int, w: Half)
    requires StandsAt(b, a, Bytes2(w))
    ensures U16(b, a) == w
  {
    var s := b[a..a + 2];
    assert s[0] == b[a] && s[1] == b[a + 1];
  }

  /** What the loader reads of a program header is what was written, wherever it stands; the bytes 1, 0, 0, 0 make it
      one to load. */
  lemma ProgramHeaderReadBack(b: Bytes, a: int, p: FullPhdr)
    requires StandsAt(b, a, ProgramHeader(p))
    ensures PhdrAt(b, a) == p.h
    ensures p.h.ptype == PT_LOAD <==> b[a..a + 4] == [1, 0, 0, 0]
  {
    hide U32, StandsAt;
    var w0, w1, w2, w3 := Bytes4(p.h.ptype), Bytes4(p.h.offset), Bytes4(p.h.vaddr), Bytes4(p.paddr);
    var w4, w5, w6, w7 := Bytes4(p.h.filesz), Bytes4(p.h.memsz), Bytes4(p.flags), Bytes4(p.align);
    StandsApart(b, a, w0 + w1 + w2 + w3 + w4 + w5 + w6, w7);
    StandsApart(b, a, w0 + w1 + w2 + w3 + w4 + w5, w6);
    StandsApart(b, a, w0 + w1 + w2 + w3 + w4, w5);
    StandsApart(b, a, w0 + w1 + w2 + w3, w4);
    StandsApart(b, a, w0 + w1 + w2, w3);
    StandsApart(b, a, w0 + w1, w2);
    StandsApart(b, a, w0, w1);
    WordReadBack(b, a, p.h.ptype);
    WordReadBack(b, a + 4, p.h.offset);
    WordReadBack(b, a + 8, p.h.vaddr);
    WordReadBack(b, a + 16, p.h.filesz);
    WordReadBack(b, a + 20, p.h.memsz);
    LoadBytes(b, a, p.h.ptype);
  }

  lemma LoadBytes(b: Bytes, a: int, w: Word)
    requires StandsAt(b, a, Bytes4(w))
    ensures 0 <= a && a + 4 <= |b| && (w == PT_LOAD <==> b[a..a + 4] == [1, 0, 0, 0])
  {
    FourBytes(w);
  }

  /** What the loader reads of the file header is what was written; the identification begins with 7F 'E' 'L' 'F'. */
  lemma FileHeaderReadBack(b: Bytes, ident: Bytes, e: Ehdr)
    requires |ident| == 16 && StandsAt(b, 0, FileHeader(ident, e))
    ensures Magic(b) == ELF_MAGIC <==> ident[..4] == [0x7F, 'E' as int, 'L' as int, 'F' as int]
    ensures Entry(b) == e.entry && PhOff(b) == e.phoff && PhNum(b) == e.phnum
  {
    hide U32, U16, StandsAt;
    var a1 := ident + Bytes2(e.etype) + Bytes2(e.machine) + Bytes4(e.version);
    var a2 := a1 + Bytes4(e.entry);
    var a3 := a2 + Bytes4(e.phoff);
    var a4 := a3 + Bytes4(e.shoff) + Bytes4(e.flags) + Bytes2(e.ehsize) + Bytes2(e.phentsize);
    var a5 := a4 + Bytes2(e.phnum);
    StandsApart(b, 0, a5 + Bytes2(e.shentsize) + Bytes2(e.shnum), Bytes2(e.shstrndx));
    StandsApart(b, 0, a5 + Bytes2(e.shentsize), Bytes2(e.shnum));
    StandsApart(b, 0, a5, Bytes2(e.shentsize));
    StandsApart(b, 0, a4, Bytes2(e.phnum));
    StandsApart(b, 0, a3 + Bytes4(e.shoff) + Bytes4(e.flags) + Bytes2(e.ehsize), Bytes2(e.phentsize));
    StandsApart(b, 0, a3 + Bytes4(e.shoff) + Bytes4(e.flags), Bytes2(e.ehsize));
    StandsApart(b, 0, a3 + Bytes4(e.shoff), Bytes4(e.flags));
    StandsApart(b, 0, a3, Bytes4(e.shoff));
    StandsApart(b, 0, a2, Bytes4(e.phoff));
    StandsApart(b, 0, a1, Bytes4(e.entry));
    StandsApart(b, 0, ident + Bytes2(e.etype) + Bytes2(e.machine), Bytes4(e.version));
    StandsApart(b, 0, ident + Bytes2(e.etype), Bytes2(e.machine));
    StandsApart(b, 0, ident, Bytes2(e.etype));
    WordReadBack(b, 24, e.entry);
    WordReadBack(b, 28, e.phoff);
    HalfReadBack(b, 44, e.phnum);
    MagicBytes(b, ident);
  }

  lemma MagicBytes(b: Bytes, ident: Bytes)
    requires |ident| == 16 && StandsAt(b, 0, ident)
    ensures Magic(b) == ELF_MAGIC <==> ident[..4] == [0x7F, 'E' as int, 'L' as int, 'F' as int]
  {
    var s := b[0..16];
    assert s[0] == b[0] && s[1] == b[1] && s[2] == b[2] && s[3] == b[3];
  }

  /** The program headers one after the other. */
  function HeaderTable(hs: seq<FullPhdr>): (b: Bytes)
    ensures |b| == 32 * |hs|
  {
    if hs == [] then [] else HeaderTable(hs[..|hs| - 1]) + ProgramHeader(hs[|hs| - 1])
  }

  /** In a file whose header gives the place of the table, the loader finds the i-th header of the table. */
  lemma {:induction false} TableReadBack(b: Bytes, hs: seq<FullPhdr>, i: nat)
    requires StandsAt(b, PhOff(b), HeaderTable(hs)) && i < |hs|
    ensures HeaderOf(b, i) == hs[i].h
  {
    hide U32, StandsAt;
    var front := hs[..|hs| - 1];
    StandsApart(b, PhOff(b), HeaderTable(front), ProgramHeader(hs[|hs| - 1]));
    if i == |hs| - 1 {
      ProgramHeaderReadBack(b, PhOff(b) + 32 * i, hs[i]);
    } else {
      TableReadBack(b, front, i);
    }
  }

  // ----- Which headers are loaded

  /** How many of the first n headers the loader loads: ph stays at the first that is not PT_LOAD. */
  function LoadCount(b: Bytes, n: nat): (k: nat)
    ensures k <= n
  {
    if n == 0 then 0
    else
      var k := LoadCount(b, n - 1);
      if HeaderOf(b, k).ptype == PT_LOAD then k + 1 else k
  }

  lemma {:induction false} LoadCountIsPrefix(b: Bytes, n: nat)
    ensures forall i | 0 <= i < LoadCount(b, n) :: HeaderOf(b, i).ptype == PT_LOAD
    ensures LoadCount(b, n) < n ==> HeaderOf(b, LoadCount(b, n)).ptype != PT_LOAD
  {
    hide HeaderOf;
    if n != 0 {
      LoadCountIsPrefix(b, n - 1);
    }
  }

  /** The loader loads every PT_LOAD header if and only if none follows a header of another type. */
  lemma AllLoadedExactlyWhenFirst(b: Bytes, n: nat)
    ensures (forall i | 0 <= i < n && HeaderOf(b, i).ptype == PT_LOAD :: i < LoadCount(b, n)) <==>
            (forall i, j | 0 <= i < j < n && HeaderOf(b, j).ptype == PT_LOAD :: HeaderOf(b, i).ptype == PT_LOAD)
  {
    hide HeaderOf;
    LoadCountIsPrefix(b, n);
    var k := LoadCount(b, n);
    if k < n {
      if exists j :: k < j < n && HeaderOf(b, j).ptype == PT_LOAD {
        var j :| k < j < n && HeaderOf(b, j).ptype == PT_LOAD;
        assert HeaderOf(b, k).ptype != PT_LOAD;
      }
    }
  }

  lemma {:induction false} LoadCountGrows(b: Bytes, i: nat, n: nat)
    requires i <= n
    ensures LoadCount(b, i) <= LoadCount(b, n)
    decreases n
  {
    hide HeaderOf;
    if i < n {
      LoadCountGrows(b, i, n - 1);
    }
  }

  // ----- What loading should leave in memory

  predicate InSegment(h: Phdr, a: int) {
    h.vaddr <= a < h.vaddr + h.memsz
  }

  predicate FileBytes(m: Bytes, disk: Bytes, h: Phdr) {
    && h.vaddr + h.filesz <= |m| && h.offset + h.filesz <= |disk|
    && forall a | h.vaddr <= a < h.vaddr + h.filesz :: m[a] == disk[a - h.vaddr + h.offset]
  }

  predicate Zeros(m: Bytes, h: Phdr) {
    && h.filesz <= h.memsz && h.vaddr + h.memsz <= |m|
    && forall a | h.vaddr + h.filesz <= a < h.vaddr + h.memsz :: m[a] == 0
  }

  /** The segment's file bytes, then zeros. */
  predicate Placed(m: Bytes, disk: Bytes, h: Phdr) {
    FileBytes(m, disk, h) && Zeros(m, h)
  }

  predicate Apart(h: Phdr, low: int, high: int) {
    h.vaddr + h.memsz <= low || high <= h.vaddr
  }

  /** The addresses from low to high - 1. */
  datatype Region = Region(low: nat, high: nat)

  /** How many of n headers are read: those loaded and the first that is not PT_LOAD, if there is one. */
  function HeadersRead(disk: Bytes, n: nat): nat {
    if LoadCount(disk, n) < n then LoadCount(disk, n) + 1 else n
  }

  /** What the loader takes for granted: the headers it reads lie in the first 4096 bytes, and each segment it loads
      fits its memory, which is outside the ramdisk, the whole stack and the other segments. */
  ghost predicate WellPlaced(disk: Bytes, size: int, stack: Region, n: nat) {
    && PhOff(disk) + PHDR_SIZE * HeadersRead(disk, n) <= BUF_SIZE
    && (forall i | 0 <= i < LoadCount(disk, n) ::
          var h := HeaderOf(disk, i);
          && h.filesz <= h.memsz && h.vaddr + h.memsz <= size
          && Apart(h, 0, RAMDISK_SIZE) && Apart(h, stack.low, stack.high))
    && (forall i, j | 0 <= i < j < LoadCount(disk, n) ::
          Apart(HeaderOf(disk, i), HeaderOf(disk, j).vaddr, HeaderOf(disk, j).vaddr + HeaderOf(disk, j).memsz))
  }

  predicate StackHolds(stack: Region, bufAt: int, size: int) {
    RAMDISK_SIZE <= stack.low <= bufAt && bufAt + BUF_SIZE <= stack.high <= size <= TWO_32
  }

  /** The assertion of ramdisk_read, whose sum is a 32-bit one. */
  predicate AssertionHolds(offset: Word, len: Word) {
    (offset + len) % TWO_32 < RAMDISK_SIZE
  }

  predicate InRamdisk(offset: Word, len: Word) {
    offset + len < RAMDISK_SIZE
  }

  /** The assertion keeps a read inside the ramdisk if and only if its sum does not wrap. */
  lemma AssertionProtectsExactly(offset: Word, len: Word)
    ensures AssertionHolds(offset, len) ==> (InRamdisk(offset, len) <==> offset + len < TWO_32)
    ensures InRamdisk(offset, len) ==> AssertionHolds(offset, len)
  {
  }

  /** The sum of the greatest offset and 1 wraps to 0: the assertion lets this read leave the ramdisk. */
  lemma WrappedReadPasses()
    ensures AssertionHolds(0xFFFF_FFFF, 1) && !InRamdisk(0xFFFF_FFFF, 1)
  {
  }

  predicate Passes(disk: Bytes, i: nat) {
    AssertionHolds(HeaderOf(disk, i).offset, HeaderOf(disk, i).filesz)
  }

  predicate OnDisk(disk: Bytes, i: nat) {
    InRamdisk(HeaderOf(disk, i).offset, HeaderOf(disk, i).filesz)
  }

  // ----- The copy primitives

  /** False stands for the failed assertion. A read whose sum wraps passes it and takes bytes from outside the ramdisk;
      nothing is said of them. */
  method RamdiskRead(mem: array<Byte>, buf: nat, offset: Word, len: Word) returns (ok: bool)
    requires (len == 0 || RAMDISK_SIZE <= buf) && buf + len <= mem.Length
    modifies mem
    ensures ok == AssertionHolds(offset, len)
    ensures forall a | 0 <= a < mem.Length && !(ok && buf <= a < buf + len) :: mem[a] == old(mem[a])
    ensures InRamdisk(offset, len) ==>
              forall a | buf <= a < buf + len :: mem[a] == old(mem[a - buf + offset])
  {
    if !((offset + len) % TWO_32 < RAMDISK_SIZE) {
      return false;
    }
    forall a | buf <= a < buf + len {
      mem[a] := var source := (a - buf + offset) % TWO_32; if source < mem.Length then mem[source] else 0;
    }
    return true;
  }

  method Memset(mem: array<Byte>, at: nat, count: nat)
    requires at + count <= mem.Length
    modifies mem
    ensures forall a | 0 <= a < mem.Length :: mem[a] == if at <= a < at + count then 0 else old(mem[a])
  {
    forall a | at <= a < at + count {
      mem[a] := 0;
    }
  }

  // ----- The loader

  /** The stack buffer at bufAt holds the first 4096 bytes of the disk. */
  ghost predicate Mirrors(m: Bytes, disk: Bytes, bufAt: int) {
    && 0 <= bufAt && bufAt + BUF_SIZE <= |m| && BUF_SIZE <= |disk|
    && forall a | bufAt <= a < bufAt + BUF_SIZE :: m[a] == disk[a - bufAt]
  }

  lemma MirroredHeader(m: Bytes, disk: Bytes, bufAt: int, off: int)
    requires Mirrors(m, disk, bufAt) && 0 <= off && off + PHDR_SIZE <= BUF_SIZE
    ensures PhdrAt(m, bufAt + off) == PhdrAt(disk, off)
  {
    MirroredWords(m, disk, bufAt, off);
    MirroredWords(m, disk, bufAt, off + 4);
    MirroredWords(m, disk, bufAt, off + 8);
    MirroredWords(m, disk, bufAt, off + 16);
    MirroredWords(m, disk, bufAt, off + 20);
  }

  lemma MirroredWords(m: Bytes, disk: Bytes, bufAt: int, off: int)
    requires Mirrors(m, disk, bufAt) && 0 <= off && off + 4 <= BUF_SIZE
    ensures U32(m, bufAt + off) == U32(disk, off) && U16(m, bufAt + off) == U16(disk, off)
  {
    assert forall a | bufAt <= a < bufAt + BUF_SIZE :: ByteAt(m, a) == ByteAt(disk, a - bufAt);
  }

  ghost predicate InLoaded(disk: Bytes, k: nat, a: int) {
    exists i | 0 <= i < k :: InSegment(HeaderOf(disk, i), a)
  }

  /** One PT_LOAD header: the file bytes, then zeros up to memsz. */
  method LoadSegment(mem: array<Byte>, h: Phdr) returns (ok: bool)
    requires (h.memsz == 0 || RAMDISK_SIZE <= h.vaddr) && h.filesz <= h.memsz && h.vaddr + h.memsz <= mem.Length
    requires RAMDISK_SIZE <= mem.Length
    modifies mem
    ensures ok == AssertionHolds(h.offset, h.filesz)
    ensures if ok then Zeros(mem[..], h) else mem[..] == old(mem[..])
    ensures InRamdisk(h.offset, h.filesz) ==> FileBytes(mem[..], old(mem[..RAMDISK_SIZE]), h)
    ensures forall a | 0 <= a < mem.Length && !InSegment(h, a) :: mem[a] == old(mem[a])
  {
    ok := RamdiskRead(mem, h.vaddr, h.offset, h.filesz);
    if ok {
      Memset(mem, h.vaddr + h.filesz, h.memsz - h.filesz);
    }
  }

  /** What holds of the memory m once k headers have been loaded from the disk at the bottom of the memory start. */
  ghost predicate Progress(m: Bytes, start: Bytes, disk: Bytes, bufAt: int, k: nat) {
    && RAMDISK_SIZE <= bufAt && bufAt + BUF_SIZE <= |start| && disk == start[..RAMDISK_SIZE]
    && |m| == |start| && m[..RAMDISK_SIZE] == disk
    && Mirrors(m, disk, bufAt)
    && (forall j | 0 <= j < k :: Passes(disk, j) && Zeros(m, HeaderOf(disk, j)))
    && (forall j | 0 <= j < k && OnDisk(disk, j) :: FileBytes(m, disk, HeaderOf(disk, j)))
    && (forall a | 0 <= a < |m| && !(bufAt <= a < bufAt + BUF_SIZE) && !InLoaded(disk, k, a) :: m[a] == start[a])
  }

  /** Loading the k-th segment leaves the ramdisk, the buffer and the earlier segments alone. */
  lemma ProgressStep(m: Bytes, m': Bytes, start: Bytes, disk: Bytes, stack: Region, bufAt: int, n: nat, k: nat,
        h: Phdr)
    requires Progress(m, start, disk, bufAt, k) && WellPlaced(disk, |start|, stack, n)
    requires StackHolds(stack, bufAt, |start|)
    requires k < LoadCount(disk, n) && h == HeaderOf(disk, k) && Passes(disk, k)
    requires |m'| == |m| && Zeros(m', h) && (OnDisk(disk, k) ==> FileBytes(m', disk, h))
    requires forall a | 0 <= a < |m| && !InSegment(h, a) :: m'[a] == m[a]
    ensures Progress(m', start, disk, bufAt, k + 1)
  {
    hide HeaderOf, OnDisk, Passes, LoadCount;
    assert forall a | 0 <= a < RAMDISK_SIZE :: m'[a] == m[a];
    assert m'[..RAMDISK_SIZE] == disk;
    forall j | 0 <= j < k
      ensures Zeros(m', HeaderOf(disk, j))
      ensures OnDisk(disk, j) ==> FileBytes(m', disk, HeaderOf(disk, j))
    {
      var g := HeaderOf(disk, j);
      assert Zeros(m, g);
      assert forall a | InSegment(g, a) :: !InSegment(h, a);
    }
    forall a | 0 <= a < |m'| && !(bufAt <= a < bufAt + BUF_SIZE) && !InLoaded(disk, k + 1, a)
      ensures m'[a] == start[a]
    {
      assert !InSegment(h, a);
      assert !InLoaded(disk, k, a);
    }
  }

  lemma ProgressBasics(m: Bytes, start: Bytes, disk: Bytes, bufAt: int, k: nat)
    requires Progress(m, start, disk, bufAt, k)
    ensures RAMDISK_SIZE <= |m| == |start| && m[..RAMDISK_SIZE] == disk
  {
  }

  lemma SegmentFits(disk: Bytes, size: int, stack: Region, n: nat, k: nat)
    requires WellPlaced(disk, size, stack, n) && k < LoadCount(disk, n)
    ensures var h := HeaderOf(disk, k);
            && h.filesz <= h.memsz && h.vaddr + h.memsz <= size && (h.memsz == 0 || RAMDISK_SIZE <= h.vaddr)
  {
  }

  /** The header words that the loader reads from its buffer are the file's. */
  lemma BufferWords(m: Bytes, start: Bytes, disk: Bytes, bufAt: int, k: nat)
    requires Progress(m, start, disk, bufAt, k)
    ensures U32(m, bufAt) == Magic(disk) && U32(m, bufAt + 24) == Entry(disk)
    ensures U32(m, bufAt + 28) == PhOff(disk) && U16(m, bufAt + 44) == PhNum(disk)
  {
    hide U16, U32;
    MirroredWords(m, disk, bufAt, 0);
    MirroredWords(m, disk, bufAt, 24);
    MirroredWords(m, disk, bufAt, 28);
    MirroredWords(m, disk, bufAt, 44);
  }

  lemma BufferHeader(m: Bytes, start: Bytes, disk: Bytes, bufAt: int, k: nat)
    requires Progress(m, start, disk, bufAt, k) && PhOff(disk) + PHDR_SIZE * k + PHDR_SIZE <= BUF_SIZE
    ensures PhdrAt(m, bufAt + PhOff(disk) + PHDR_SIZE * k) == HeaderOf(disk, k)
  {
    hide U16, U32;
    MirroredHeader(m, disk, bufAt, PhOff(disk) + PHDR_SIZE * k);
  }

  lemma BufferFilled(start: Bytes, m: Bytes, disk: Bytes, bufAt: int)
    requires RAMDISK_SIZE <= bufAt && bufAt + BUF_SIZE <= |start| && |m| == |start| && disk == start[..RAMDISK_SIZE]
    requires forall a | bufAt <= a < bufAt + BUF_SIZE :: m[a] == start[a - bufAt]
    requires forall a | 0 <= a < |m| && !(bufAt <= a < bufAt + BUF_SIZE) :: m[a] == start[a]
    ensures Progress(m, start, disk, bufAt, 0)
  {
    assert m[..RAMDISK_SIZE] == start[..RAMDISK_SIZE];
  }

  /** One round of the loop over the headers; None stands for the failed assertion in ramdisk_read. */
  method LoadNext(mem: array<Byte>, ph: nat, ghost start: Bytes, ghost disk: Bytes, ghost stack: Region,
        ghost bufAt: nat, ghost i: nat, ghost k: nat)
      returns (next: Option<nat>)
    requires Progress(mem[..], start, disk, bufAt, k) && WellPlaced(disk, |start|, stack, PhNum(disk))
    requires StackHolds(stack, bufAt, |start|)
    requires i < PhNum(disk) && k == LoadCount(disk, i) && ph == bufAt + PhOff(disk) + PHDR_SIZE * k
    modifies mem
    ensures next == None ==>
              k < LoadCount(disk, PhNum(disk)) && !Passes(disk, k) && Progress(mem[..], start, disk, bufAt, k)
    ensures next.Some? ==>
              var k' := LoadCount(disk, i + 1);
              next.value == ph + PHDR_SIZE * (k' - k) && Progress(mem[..], start, disk, bufAt, k')
  {
    hide Progress, PhdrAt, FileBytes, Zeros, PhOff, PhNum, HeaderOf, AssertionHolds, InRamdisk;
    LoadCountGrows(disk, i, PhNum(disk));
    HeadersInBuffer(disk, |start|, stack, PhNum(disk), k);
    BufferHeader(mem[..], start, disk, bufAt, k);
    ProgressBasics(mem[..], start, disk, bufAt, k);
    var h := PhdrAt(mem[..], ph);
    assert h == HeaderOf(disk, k);
    if h.ptype == PT_LOAD {
      LoadCountGrows(disk, i + 1, PhNum(disk));
      SegmentFits(disk, |start|, stack, PhNum(disk), k);
      ghost var before := mem[..];
      var ok := LoadSegment(mem, h);
      if !ok {
        return None;
      }
      ProgressStep(before, mem[..], start, disk, stack, bufAt, PhNum(disk), k, h);
      return Some(ph + PHDR_SIZE);
    }
    return Some(ph);
  }

  lemma HeadersInBuffer(disk: Bytes, size: int, stack: Region, n: nat, k: nat)
    requires WellPlaced(disk, size, stack, n) && k < n && k <= LoadCount(disk, n)
    ensures PhOff(disk) + PHDR_SIZE * k + PHDR_SIZE <= BUF_SIZE
  {
  }

  /** None stands for a failed assertion: a bad magic number, or the one in ramdisk_read. Otherwise every header before
      the first that is not PT_LOAD has its zeros and, if it lies on the disk, its file bytes in place. Outside those
      segments and the stack, which holds the buffer, nothing changes. */
  method LoadProgram(mem: array<Byte>, bufAt: nat, ghost stack: Region) returns (entry: Option<Word>)
    requires StackHolds(stack, bufAt, mem.Length)
    requires Magic(mem[..RAMDISK_SIZE]) == ELF_MAGIC ==>
               WellPlaced(mem[..RAMDISK_SIZE], mem.Length, stack, PhNum(mem[..RAMDISK_SIZE]))
    modifies mem
    ensures var disk := old(mem[..RAMDISK_SIZE]);
            var k := LoadCount(disk, PhNum(disk));
            && (entry.Some? <==> Magic(disk) == ELF_MAGIC && forall i | 0 <= i < k :: Passes(disk, i))
            && (entry.Some? ==>
                  && entry.value == Entry(disk)
                  && (forall i | 0 <= i < k :: Zeros(mem[..], HeaderOf(disk, i)))
                  && (forall i | 0 <= i < k && OnDisk(disk, i) :: Placed(mem[..], disk, HeaderOf(disk, i))))
            && (forall a | 0 <= a < mem.Length && !(stack.low <= a < stack.high) && !InLoaded(disk, k, a) ::
                  mem[a] == old(mem[a]))
  {
    hide HeaderOf, Passes, OnDisk, FileBytes, Zeros, WellPlaced;
    ghost var start := mem[..];
    ghost var disk := start[..RAMDISK_SIZE];
    assert mem[..RAMDISK_SIZE] == disk;
    var read := RamdiskRead(mem, bufAt, 0, BUF_SIZE);
    BufferFilled(start, mem[..], disk, bufAt);
    ghost var k;
    entry, k := LoadHeaders(mem, bufAt, start, disk, stack);
  }

  /** The rest of the loader, once the buffer is filled. */
  method LoadHeaders(mem: array<Byte>, bufAt: nat, ghost start: Bytes, ghost disk: Bytes, ghost stack: Region)
      returns (entry: Option<Word>, ghost k: nat)
    requires Progress(mem[..], start, disk, bufAt, 0) && StackHolds(stack, bufAt, |start|)
    requires Magic(disk) == ELF_MAGIC ==> WellPlaced(disk, |start|, stack, PhNum(disk))
    modifies mem
    ensures k <= LoadCount(disk, PhNum(disk)) && Progress(mem[..], start, disk, bufAt, k)
    ensures entry == None ==> Magic(disk) != ELF_MAGIC || (k < LoadCount(disk, PhNum(disk)) && !Passes(disk, k))
    ensures entry.Some? ==>
              Magic(disk) == ELF_MAGIC && entry.value == Entry(disk) && k == LoadCount(disk, PhNum(disk))
  {
    hide Progress, WellPlaced, U16, U32, Passes, StackHolds;
    BufferWords(mem[..], start, disk, bufAt, 0);
    k := 0;
    if !(U32(mem[..], bufAt) == ELF_MAGIC) {
      return None, 0;
    }
    var ph: nat := bufAt + U32(mem[..], bufAt + 28);
    var i := 0;
    while i < U16(mem[..], bufAt + 44)
      invariant 0 <= i <= PhNum(disk)
      invariant k == LoadCount(disk, i) && ph == bufAt + PhOff(disk) + PHDR_SIZE * k
      invariant Progress(mem[..], start, disk, bufAt, k)
      decreases PhNum(disk) - i
    {
      BufferWords(mem[..], start, disk, bufAt, k);
      LoadCountGrows(disk, i + 1, PhNum(disk));
      var next := LoadNext(mem, ph, start, disk, stack, bufAt, i, k);
      if next == None {
        return None, k;
      }
      ph := next.value;
      i := i + 1;
      k := LoadCount(disk, i);
    }
    BufferWords(mem[..], start, disk, bufAt, k);
    entry := Some(U32(mem[..], bufAt + 24));
  }

  /** A file whose only PT_LOAD header follows another kind of header: nothing of it is loaded. */
  lemma LoadHeaderMissed(b: Bytes)
    requires HeaderOf(b, 0).ptype != PT_LOAD && HeaderOf(b, 1).ptype == PT_LOAD
    ensures LoadCount(b, 2) == 0
  {
    hide HeaderOf;
    assert LoadCount(b, 0) == 0;
    assert LoadCount(b, 1) == 0;
  }
}
