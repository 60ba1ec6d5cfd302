// Address spaces coming and going over one memory and one bitmap of frames.
module AddrSpaceRuns {
  import opened Collections
  import opened Codec
  import opened HeaderValue
  import opened Bitmaps
  import opened FileHeaders
  import opened OpenFile
  import opened Paging
  import opened FrameOwnership
  import opened AddrSpaces

  /** An executable file, its header as read from it, and all that is in it. */
  datatype Program = Program(executable: OpenNaFile, header: NoffHeader, contents: seq<byte>)

  /** What there is: the map of frames, the page table of each space, and memory. */
  datatype Snapshot = Snapshot(bits: seq<bool>, tables: seq<seq<Pte>>, memory: Memory)

  datatype Command =
    | Load(p: Program)
    | Unload(i: nat)
    | Write(i: nat, addr: int32, size: int, value: int32)
    | Read(i: nat, addr: int32, size: int)
    | CopyIn(i: nat, vaddr: int32, bytes: seq<byte>)

  /** What comes of it; nothing, if it cannot be done. */
  datatype Outcome =
    | Nothing
    | Loaded(usable: bool)
    | Accessed(status: TranslationStatus, value: int32)
    | Moved(count: int)

  // ---- what each command does ----------------------------------------------------------------------------

  /** A space constructed, in vain or not. */
  ghost predicate Loading(a: Snapshot, h: NoffHeader, file: seq<byte>, usable: bool, b: Snapshot) {
    && Laid(h) && usable == Loadable(h, a.bits)
    && |b.tables| == |a.tables| + 1 && b.tables[..|a.tables|] == a.tables
    && var pt := b.tables[|a.tables|];
    && |pt| == (if h.noffMagic == NOFFMAGIC then NumPages(h) else 0)
    && Taken(a.bits, b.bits, Frames(pt)) && Elsewhere(pt, a.memory, b.memory)
    && if usable then Started(pt, h, file, b.memory) else b.memory == a.memory
  }

  /** A process that can run: every page in a frame of its own, and its program in its memory. */
  ghost predicate Started(pt: seq<Pte>, h: NoffHeader, file: seq<byte>, m: Memory)
    requires Laid(h)
  {
    && AllValid(pt) && Injective(pt) && ReadyToRun(pt, h)
    && forall v :: Readable(pt, v) ==> Seen(m, pt, v) == Image(h, 3, file, v)
  }

  ghost predicate Unloading(a: Snapshot, i: nat, b: Snapshot)
    requires i < |a.tables|
  {
    b.tables == Without(a.tables, i) && Taken(b.bits, a.bits, Frames(a.tables[i])) && b.memory == a.memory
  }

  ghost predicate Writing(a: Snapshot, i: nat, addr: nat, size: int, value: int32, status: TranslationStatus,
    b: Snapshot)
    requires i < |a.tables| && size in {1, 2, 4}
  {
    var pt := a.tables[i];
    && status == KernelAccess(pt, addr, size, true)
    && (status == OK ==> 0 <= Physical(pt, addr) && Physical(pt, addr) + size <= MEMORY_SIZE)
    && b == Snapshot(a.bits,
                     a.tables[i := if KernelStatus(pt, addr, true) == OK then Touched(pt, addr, true) else pt],
                     if status == OK then Store(a.memory, Physical(pt, addr), size, value) else a.memory)
  }

  ghost predicate Reading(a: Snapshot, i: nat, addr: nat, size: int, status: TranslationStatus, value: int32,
    b: Snapshot)
    requires i < |a.tables| && size in {1, 2, 4}
  {
    var pt := a.tables[i];
    && status == KernelAccess(pt, addr, size, false)
    && (status == OK ==>
          0 <= Physical(pt, addr) && Physical(pt, addr) + size <= MEMORY_SIZE
          && value == Paging.Load(a.memory, Physical(pt, addr), size))
    && b == a.(tables := a.tables[i := if KernelStatus(pt, addr, false) == OK then Touched(pt, addr, false) else pt])
  }

  ghost predicate Copying(a: Snapshot, i: nat, vaddr: int, bytes: seq<byte>, r: int, b: Snapshot)
    requires i < |a.tables|
  {
    var pt, n := a.tables[i], Reach(a.tables[i], vaddr, |bytes|);
    && |b.tables| == |a.tables| && b.tables == a.tables[i := b.tables[i]] && SameMap(pt, b.tables[i])
    && r == (if WritableRange(pt, vaddr, |bytes|) then |bytes| else -1)
    && WritableRange(pt, vaddr, n) && b.bits == a.bits && b.memory == Copied(a.memory, pt, vaddr, bytes[..n])
  }

  /** One command; what the ASSERTs forbid is not done. */
  ghost predicate Step(a: Snapshot, c: Command, o: Outcome, b: Snapshot) {
    match c
    case Load(p) => o.Loaded? && Loading(a, p.header, p.contents, o.usable, b)
    case Unload(i) => o == Nothing && if i < |a.tables| then Unloading(a, i, b) else b == a
    case Write(i, addr, size, value) =>
      if i < |a.tables| && addr >= 0 && size in {1, 2, 4} then
        o.Accessed? && Writing(a, i, addr, size, value, o.status, b)
      else o == Nothing && b == a
    case Read(i, addr, size) =>
      if i < |a.tables| && addr >= 0 && size in {1, 2, 4} then
        o.Accessed? && Reading(a, i, addr, size, o.status, o.value, b)
      else o == Nothing && b == a
    case CopyIn(i, vaddr, bytes) =>
      if i < |a.tables| && |bytes| <= INT_MAX && Countable(a.tables[i], vaddr, |bytes|) then
        o.Moved? && Copying(a, i, vaddr, bytes, o.count, b)
      else o == Nothing && b == a
  }

  // ---- what every command keeps --------------------------------------------------------------------------

  /** The frames of a space in an owned world are held: what the destructor takes for granted. */
  lemma OwnedHeld(bits: seq<bool>, spaces: seq<seq<Pte>>, i: nat)
    requires Owned(bits, spaces) && i < |spaces|
    ensures Held(bits, Frames(spaces[i]))
  {
    AllFramesSplit(spaces, i);
    var a, b, all := AllFrames(spaces[..i]), Frames(spaces[i]), AllFrames(spaces);
    assert forall k :: 0 <= k < |b| ==> b[k] == all[|a| + k];
    forall f | f in b ensures 0 <= f < |bits| && bits[f] {
      assert f in all;
    }
  }

  /** A space whose page table has only had use and dirty bits changed still owns what it did. */
  lemma TouchedOwned(bits: seq<bool>, tables: seq<seq<Pte>>, k: nat, pt: seq<Pte>)
    requires Owned(bits, tables) && k < |tables| && SameMap(tables[k], pt)
    ensures Owned(bits, tables[k := pt])
  {
    hide Owned, SameMap;
    AllFramesSame(tables, k, pt);
    OwnedSame(bits, tables, tables[k := pt]);
  }

  /** A write that goes through, and one that does not, as the space's page table sees them. */
  lemma WriteElsewhere(m: Memory, pt: seq<Pte>, addr: nat, size: int, value: int32)
    requires size in {1, 2, 4} && KernelAccess(pt, addr, size, true) == OK
    requires 0 <= Physical(pt, addr) && Physical(pt, addr) + size <= MEMORY_SIZE
    ensures Elsewhere(pt, m, Store(m, Physical(pt, addr), size, value))
  {
    WithinFrame(pt, addr, size, true);
    StoreInFrame(m, pt, addr / PAGE_SIZE, Physical(pt, addr), size, value);
  }

  lemma {:induction false} CopiedElsewhere(m: Memory, pt: seq<Pte>, vaddr: int, buf: seq<byte>)
    requires WritableRange(pt, vaddr, |buf|)
    ensures Elsewhere(pt, m, Copied(m, pt, vaddr, buf))
  {
    if buf != [] {
      var k := |buf| - 1;
      assert Writable(pt, vaddr + k);
      WithinFrame(pt, vaddr + k, 1, true);
      CopiedElsewhere(m, pt, vaddr, buf[..k]);
    }
  }

  lemma ReadKept(pt: seq<Pte>, qt: seq<Pte>, addr: nat)
    requires qt == if KernelStatus(pt, addr, false) == OK then Touched(pt, addr, false) else pt
    ensures SameMap(pt, qt)
  {
  }

  lemma WriteKept(m: Memory, n: Memory, pt: seq<Pte>, qt: seq<Pte>, addr: nat, size: int, value: int32,
    status: TranslationStatus)
    requires size in {1, 2, 4} && status == KernelAccess(pt, addr, size, true)
    requires status == OK ==> 0 <= Physical(pt, addr) && Physical(pt, addr) + size <= MEMORY_SIZE
    requires n == if status == OK then Store(m, Physical(pt, addr), size, value) else m
    requires qt == if KernelStatus(pt, addr, true) == OK then Touched(pt, addr, true) else pt
    ensures Elsewhere(pt, m, n) && SameMap(pt, qt)
  {
    TouchedSame(pt, addr, true);
    if status == OK {
      WriteElsewhere(m, pt, addr, size, value);
    }
  }

  lemma CopyKept(a: Snapshot, i: nat, vaddr: int, bytes: seq<byte>, r: int, b: Snapshot)
    requires i < |a.tables| && Copying(a, i, vaddr, bytes, r, b)
    ensures Elsewhere(a.tables[i], a.memory, b.memory) && SameMap(a.tables[i], b.tables[i])
  {
    hide SameMap, WritableRange, Elsewhere, Copied, KernelStatus;
    CopiedElsewhere(a.memory, a.tables[i], vaddr, bytes[..Reach(a.tables[i], vaddr, |bytes|)]);
  }

  /** The frames of a space are as they were. */
  ghost predicate Kept(pt: seq<Pte>, m: Memory, n: Memory) {
    forall p :: 0 <= p < MEMORY_SIZE && InFrames(pt, p / PAGE_SIZE) ==> n[p] == m[p]
  }

  lemma ApartKept(pt: seq<Pte>, qt: seq<Pte>, m: Memory, n: Memory)
    requires Elsewhere(pt, m, n) && Apart(pt, qt)
    ensures Kept(qt, m, n)
  {
    forall p | 0 <= p < MEMORY_SIZE && InFrames(qt, p / PAGE_SIZE) ensures n[p] == m[p] {
      assert !InFrames(pt, p / PAGE_SIZE);
    }
  }

  /** Then its process sees what it saw, and reads what it read. */
  lemma KeptSeen(pt: seq<Pte>, m: Memory, n: Memory, v: int)
    requires Kept(pt, m, n) && Readable(pt, v)
    ensures Seen(n, pt, v) == Seen(m, pt, v)
  {
    WithinFrame(pt, v, 1, false);
    assert InFrames(pt, Physical(pt, v) / PAGE_SIZE);
  }

  lemma KeptLoad(pt: seq<Pte>, m: Memory, n: Memory, addr: nat, size: int)
    requires Kept(pt, m, n) && size in {1, 2, 4} && KernelAccess(pt, addr, size, false) == OK
    ensures 0 <= Physical(pt, addr) && Physical(pt, addr) + size <= MEMORY_SIZE
    ensures Paging.Load(n, Physical(pt, addr), size) == Paging.Load(m, Physical(pt, addr), size)
  {
    WithinFrame(pt, addr, size, false);
    var p := Physical(pt, addr);
    assert InFrames(pt, p / PAGE_SIZE);
    forall k | p <= k < p + size ensures n[k] == m[k] {
      assert k / PAGE_SIZE == p / PAGE_SIZE;
    }
    assert size == 4 ==> n[p..p + 4] == m[p..p + 4];
  }

  /** Every command keeps the map the disjoint union of the frames of the spaces there are. */
  lemma StepOwned(a: Snapshot, c: Command, o: Outcome, b: Snapshot)
    requires Owned(a.bits, a.tables) && Step(a, c, o, b)
    ensures Owned(b.bits, b.tables)
  {
    hide Owned, Taken, Frames, SameMap, Started, Laid, Loadable, Elsewhere, Copying, KernelAccess, Countable;
    match c
    case Load(p) =>
      var pt := b.tables[|a.tables|];
      CreateKeeps(a.bits, b.bits, a.tables, pt);
      assert a.tables + [pt] == b.tables;
    case Unload(i) =>
      if i < |a.tables| {
        DestroyKeeps(a.bits, b.bits, a.tables, i);
      }
    case Write(i, addr, size, value) =>
      if b != a {
        WriteKept(a.memory, b.memory, a.tables[i], b.tables[i], addr, size, value, o.status);
        TouchedOwned(a.bits, a.tables, i, b.tables[i]);
      }
    case Read(i, addr, size) =>
      if b != a {
        ReadKept(a.tables[i], b.tables[i], addr);
        TouchedOwned(a.bits, a.tables, i, b.tables[i]);
      }
    case CopyIn(i, vaddr, bytes) =>
      if b != a {
        CopyKept(a, i, vaddr, bytes, o.count, b);
        CopiedTables(a, i, vaddr, bytes, o.count, b);
        TouchedOwned(a.bits, a.tables, i, b.tables[i]);
      }
  }

  lemma CopiedTables(a: Snapshot, i: nat, vaddr: int, bytes: seq<byte>, r: int, b: Snapshot)
    requires i < |a.tables| && Copying(a, i, vaddr, bytes, r, b)
    ensures |b.tables| == |a.tables| && b.tables == a.tables[i := b.tables[i]] && b.bits == a.bits
  {
  }

  // ---- one process among others --------------------------------------------------------------------------

  /** A command that does not name space `i`. */
  predicate Spares(c: Command, i: nat) {
    c.Load? || c.i != i
  }

  /** What number that space then has. */
  function Renumbered(i: nat, c: Command): nat {
    if c.Unload? && c.i < i then i - 1 else i
  }

  /** Whatever is done to others, or for them: a space keeps its page table, and its frames what is in them. */
  lemma StepSpares(a: Snapshot, c: Command, o: Outcome, b: Snapshot, i: nat)
    requires Owned(a.bits, a.tables) && Step(a, c, o, b) && i < |a.tables| && Spares(c, i)
    ensures var j := Renumbered(i, c);
      j < |b.tables| && b.tables[j] == a.tables[i] && Kept(a.tables[i], a.memory, b.memory)
  {
    StepOwned(a, c, o, b);
    AllApart(a.bits, a.tables);
    hide Owned, Taken, Frames, SameMap, Started, Laid, Loadable, Elsewhere, Copying, KernelAccess, Countable, Apart;
    match c
    case Load(p) =>
      AllApart(b.bits, b.tables);
      assert b.tables[..|a.tables|][i] == a.tables[i];
      ApartKept(b.tables[|a.tables|], a.tables[i], a.memory, b.memory);
    case Unload(k) =>
    case Write(k, addr, size, value) =>
      if b != a {
        WriteKept(a.memory, b.memory, a.tables[k], b.tables[k], addr, size, value, o.status);
        ApartKept(a.tables[k], a.tables[i], a.memory, b.memory);
      }
    case Read(k, addr, size) =>
    case CopyIn(k, vaddr, bytes) =>
      if b != a {
        CopyKept(a, k, vaddr, bytes, o.count, b);
        CopiedTables(a, k, vaddr, bytes, o.count, b);
        ApartKept(a.tables[k], a.tables[i], a.memory, b.memory);
      }
  }

  /** The address spaces there are, loaded or given up for want of frames. */
  class Processes {
    const memMap: Bitmap
    const mainMemory: array<byte>
    var spaces: seq<AddrSpace>
    ghost var tables: seq<seq<Pte>>
    ghost var Repr: set<object>

    ghost predicate Valid()
      reads this, Repr
    {
      Shared() && Mirrored() && Owned(memMap.Bits(), tables)
    }

    /** The bitmap and the memory that all spaces share. */
    ghost predicate Shared()
      reads this
    {
      && memMap in Repr && memMap.store in Repr && mainMemory in Repr && this !in Repr
      && memMap.store as object != mainMemory
      && memMap.Valid() && memMap.numBits == NUM_PHYS_PAGES && mainMemory.Length == MEMORY_SIZE
    }

    /** Every space is a good one, with a page table of its own, which `tables` mirrors. */
    ghost predicate Mirrored()
      reads this, Repr
    {
      && |tables| == |spaces|
      && (forall i :: 0 <= i < |spaces| ==> spaces[i] in Repr && spaces[i].pageTable in Repr)
      && (forall i :: 0 <= i < |spaces| ==> Member(spaces[i], tables[i]))
      && (forall i, j :: 0 <= i < j < |spaces| ==> spaces[i] != spaces[j] && spaces[i].pageTable != spaces[j].pageTable)
    }

    ghost predicate Member(s: AddrSpace, t: seq<Pte>)
      reads s, s.pageTable
    {
      s.Valid() && s.mainMemory == mainMemory && s.memMap == memMap && s.Table() == t
    }

    ghost function Snap(): Snapshot
      requires Shared()
      reads this, memMap.store, mainMemory
    {
      Snapshot(memMap.Bits(), tables, mainMemory[..])
    }

    constructor (memMap: Bitmap, mainMemory: array<byte>)
      requires memMap.Valid() && memMap.numBits == NUM_PHYS_PAGES && mainMemory.Length == MEMORY_SIZE
      requires forall f :: 0 <= f < NUM_PHYS_PAGES ==> !memMap.Bits()[f]
      requires memMap.store as object != mainMemory
      ensures Valid() && this.memMap == memMap && this.mainMemory == mainMemory
      ensures Snap() == Snapshot(memMap.Bits(), [], mainMemory[..])
      ensures Repr == {memMap as object, memMap.store, mainMemory}
    {
      this.memMap, this.mainMemory, spaces, tables := memMap, mainMemory, [], [];
      Repr := {memMap as object, memMap.store, mainMemory};
    }

    /** Construct an address space, in vain or not. */
    method Load(p: Program) returns (usable: bool)
      requires Valid() && Loads(Command.Load(p), memMap, mainMemory)
      modifies this, mainMemory, memMap.store
      ensures Valid() && fresh(Repr - old(Repr))
      ensures Loading(old(Snap()), p.header, p.contents, usable, Snap())
    {
      hide Owned, Taken, Elsewhere, Injective, Frames, Loadable, Laid, BitsOf, Image, ReadyToRun, FileBytes, AllValid,
        Seen, Readable;
      ghost var a := Snap();
      var s := new AddrSpace(p.executable, p.header, memMap, mainMemory, 0);
      usable := s.id != -1;
      CreateKeeps(a.bits, memMap.Bits(), tables, s.Table());
      Add(s);
      assert Snap().tables[..|a.tables|] == a.tables;
    }

    method Add(s: AddrSpace)
      requires Shared() && Mirrored() && Member(s, s.Table()) && Owned(memMap.Bits(), tables + [s.Table()])
      requires s !in Repr && s.pageTable !in Repr && this != s as object
      modifies this
      ensures Valid() && Repr == old(Repr) + {s, s.pageTable} && spaces == old(spaces) + [s]
              && tables == old(tables) + [s.Table()]
    {
      hide Owned, BitsOf;
      spaces, tables := spaces + [s], tables + [s.Table()];
      Repr := Repr + {s, s.pageTable};
    }

    /** Destroy an address space: it holds its frames, as the destructor takes for granted. */
    method Unload(i: nat)
      requires Valid() && i < |spaces|
      modifies this, memMap.store
      ensures Valid() && Repr == old(Repr) && Unloading(old(Snap()), i, Snap())
    {
      hide Owned, Taken, Held, Frames, BitsOf;
      ghost var bits := memMap.Bits();
      OwnedHeld(bits, tables, i);
      assert Member(spaces[i], tables[i]);
      spaces[i].Destroy();
      DestroyKeeps(bits, memMap.Bits(), tables, i);
      assert Mirrored();
      spaces, tables := spaces[..i] + spaces[i + 1..], Without(tables, i);
    }

    /** A write by, or for, the `i`-th process. */
    method Write(i: nat, addr: int32, size: int, value: int32) returns (status: TranslationStatus)
      requires Valid() && i < |spaces| && addr >= 0 && size in {1, 2, 4}
      modifies this`tables, spaces[i].pageTable, mainMemory
      ensures Valid() && Writing(old(Snap()), i, addr, size, value, status, Snap())
    {
      hide Owned, Touched, KernelAccess, KernelStatus, Physical, BitsOf, Store, SameMap, Elsewhere;
      ghost var a := Snap();
      assert Member(spaces[i], tables[i]);
      status := spaces[i].WriteMem(addr, size, value);
      WriteKept(a.memory, mainMemory[..], a.tables[i], spaces[i].Table(), addr, size, value, status);
      TouchedOwned(a.bits, a.tables, i, spaces[i].Table());
      tables := tables[i := spaces[i].Table()];
    }

    method Read(i: nat, addr: int32, size: int) returns (status: TranslationStatus, value: int32)
      requires Valid() && i < |spaces| && addr >= 0 && size in {1, 2, 4}
      modifies this`tables, spaces[i].pageTable
      ensures Valid() && Reading(old(Snap()), i, addr, size, status, value, Snap())
    {
      hide Owned, Touched, KernelAccess, KernelStatus, Physical, BitsOf, Paging.Load, SameMap;
      ghost var a := Snap();
      assert Member(spaces[i], tables[i]);
      status, value := spaces[i].ReadMem(addr, size);
      ReadKept(a.tables[i], spaces[i].Table(), addr);
      TouchedOwned(a.bits, a.tables, i, spaces[i].Table());
      tables := tables[i := spaces[i].Table()];
    }

    /** A buffer copied into the `i`-th process, as far as it can be. */
    method CopyIn(i: nat, vaddr: int32, buf: array<byte>) returns (r: int)
      requires Valid() && i < |spaces| && buf !in Repr && buf.Length <= INT_MAX
               && Countable(tables[i], vaddr, buf.Length)
      modifies this`tables, spaces[i].pageTable, mainMemory
      ensures Valid() && Copying(old(Snap()), i, vaddr, buf[..], r, Snap())
    {
      hide Owned, Elsewhere, SameMap, KernelStatus, Physical, BitsOf, Copied, WritableRange, Countable, Reach;
      ghost var a := Snap();
      assert Member(spaces[i], tables[i]);
      r := spaces[i].KernelToUserBuf(vaddr, buf.Length, buf);
      TouchedOwned(a.bits, a.tables, i, spaces[i].Table());
      tables := tables[i := spaces[i].Table()];
    }
  }

  // ---- runs ------------------------------------------------------------------------------------------------

  /** The programs to be loaded are on files of their own. */
  ghost predicate Loads(c: Command, memMap: Bitmap, mainMemory: array<byte>)
    reads if c.Load? then {c.p.executable.hdr, c.p.executable.hdr.dataSectors, c.p.executable.disk.sectors} else {}
  {
    c.Load? ==>
      && c.p.executable.Valid() && {mainMemory as object, memMap.store} !! c.p.executable.Repr() && Laid(c.p.header)
      && c.p.executable.Bytes() == c.p.contents
  }

  method Obey(ps: Processes, c: Command) returns (o: Outcome)
    requires ps.Valid() && Loads(c, ps.memMap, ps.mainMemory)
    modifies ps, ps.Repr - {ps.memMap}
    ensures ps.Valid() && fresh(ps.Repr - old(ps.Repr)) && Step(old(ps.Snap()), c, o, ps.Snap())
  {
    hide Owned, Laid, BitsOf, Loading, Unloading, Writing, Reading, Copying;
    o := Nothing;
    match c
    case Load(p) =>
      var usable := ps.Load(p);
      o := Loaded(usable);
    case Unload(i) =>
      if i < |ps.spaces| {
        ps.Unload(i);
      }
    case Write(i, addr, size, value) =>
      if i < |ps.spaces| && addr >= 0 && size in {1, 2, 4} {
        var status := ps.Write(i, addr, size, value);
        o := Accessed(status, 0);
      }
    case Read(i, addr, size) =>
      if i < |ps.spaces| && addr >= 0 && size in {1, 2, 4} {
        var status, value := ps.Read(i, addr, size);
        o := Accessed(status, value);
      }
    case CopyIn(i, vaddr, bytes) =>
      if i < |ps.spaces| && |bytes| <= INT_MAX {
        assert ps.Member(ps.spaces[i], ps.tables[i]);
        if |bytes| == 0 || (vaddr >= 0 && (vaddr + |bytes| <= INT_MAX
          || ps.spaces[i].pageTable.Length <= INT_MAX / PAGE_SIZE)) {
          var buf := new byte[|bytes|](k requires 0 <= k < |bytes| => bytes[k]);
          assert buf[..] == bytes;
          var r := ps.CopyIn(i, vaddr, buf);
          o := Moved(r);
        }
      }
  }

  ghost predicate Trace(ts: seq<Snapshot>, cs: seq<Command>, os: seq<Outcome>) {
    && |ts| == |cs| + 1 && |os| == |cs|
    && forall k :: 0 <= k < |cs| ==> Step(ts[k], cs[k], os[k], ts[k + 1])
  }

  lemma TraceNone(a: Snapshot, cs: seq<Command>)
    ensures Trace([a], cs[..0], [])
  {
  }

  lemma TraceMore(ts: seq<Snapshot>, cs: seq<Command>, os: seq<Outcome>, k: nat, o: Outcome, b: Snapshot)
    requires k < |cs| && Trace(ts, cs[..k], os) && Step(ts[k], cs[k], o, b)
    ensures Trace(ts + [b], cs[..k + 1], os + [o])
  {
    hide Step;
    assert cs[..k + 1][..k] == cs[..k];
  }

  /** Address spaces come and go, in vain or not, and are written and read in between, in any order. */
  method Run(memMap: Bitmap, mainMemory: array<byte>, cs: seq<Command>)
    returns (ps: Processes, os: seq<Outcome>, ghost ts: seq<Snapshot>)
    requires memMap.Valid() && memMap.numBits == NUM_PHYS_PAGES && mainMemory.Length == MEMORY_SIZE
    requires (forall f :: 0 <= f < NUM_PHYS_PAGES ==> !memMap.Bits()[f]) && memMap.store as object != mainMemory
    requires forall c :: c in cs ==> Loads(c, memMap, mainMemory)
    modifies memMap.store, mainMemory
    ensures ps.Valid() && ps.memMap == memMap && ps.mainMemory == mainMemory
    ensures Trace(ts, cs, os) && ts[0] == Snapshot(old(memMap.Bits()), [], old(mainMemory[..])) && ts[|cs|] == ps.Snap()
  {
    hide BitsOf, Step, Owned, Trace, Processes.Mirrored, Laid, FileBytes, Good, Distinct;
    ps := new Processes(memMap, mainMemory);
    os, ts := [], [ps.Snap()];
    TraceNone(ps.Snap(), cs);
    var k := 0;
    while k < |cs|
      invariant 0 <= k <= |cs| && ps.Valid() && ps.memMap == memMap && ps.mainMemory == mainMemory
      invariant fresh(ps) && fresh(ps.Repr - {memMap as object, memMap.store, mainMemory})
      invariant forall c :: c in cs ==> Loads(c, memMap, mainMemory)
      invariant |ts| == k + 1 && Trace(ts, cs[..k], os)
      invariant ts[0] == Snapshot(old(memMap.Bits()), [], old(mainMemory[..])) && ts[k] == ps.Snap()
    {
      var o := Obey(ps, cs[k]);
      TraceMore(ts, cs, os, k, o, ps.Snap());
      os, ts := os + [o], ts + [ps.Snap()];
      k := k + 1;
    }
    assert cs[..k] == cs;
  }

  // ---- whole runs ------------------------------------------------------------------------------------------

  /** At every moment of a run the map of frames is the disjoint union of the frames of the spaces there are,
      and no two of them share one. */
  lemma {:induction false} RunOwned(ts: seq<Snapshot>, cs: seq<Command>, os: seq<Outcome>, k: nat)
    requires Trace(ts, cs, os) && Owned(ts[0].bits, ts[0].tables) && k <= |cs|
    ensures Owned(ts[k].bits, ts[k].tables)
    ensures forall i, j :: 0 <= i < j < |ts[k].tables| ==> Apart(ts[k].tables[i], ts[k].tables[j])
  {
    hide Owned, Step, Apart;
    if k > 0 {
      RunOwned(ts, cs, os, k - 1);
      StepOwned(ts[k - 1], cs[k - 1], os[k - 1], ts[k]);
    }
    AllApart(ts[k].bits, ts[k].tables);
  }

  /** The number that space `i` has after the first `k` commands. */
  function Place(i: nat, cs: seq<Command>, k: nat): nat
    requires k <= |cs|
  {
    if k == 0 then i else Renumbered(Place(i, cs, k - 1), cs[k - 1])
  }

  /** None of the first `k` commands is for space `i`. */
  predicate Spared(i: nat, cs: seq<Command>, k: nat)
    requires k <= |cs|
  {
    forall n :: 0 <= n < k ==> Spares(cs[n], Place(i, cs, n))
  }

  /** Whatever others do, load, write or copy, and whichever of them end: as long as nothing is done for it,
      a process keeps its page table and all that is in its frames, so that it sees what it saw. */
  lemma {:induction false} RunSpares(ts: seq<Snapshot>, cs: seq<Command>, os: seq<Outcome>, k: nat, i: nat)
    requires Trace(ts, cs, os) && Owned(ts[0].bits, ts[0].tables) && k <= |cs| && i < |ts[0].tables| && Spared(i, cs, k)
    ensures var pt, j := ts[0].tables[i], Place(i, cs, k);
      && j < |ts[k].tables| && ts[k].tables[j] == pt && Kept(pt, ts[0].memory, ts[k].memory)
      && forall v :: Readable(pt, v) ==> Seen(ts[k].memory, pt, v) == Seen(ts[0].memory, pt, v)
  {
    hide Owned, Step, Spares, Renumbered, Readable, Seen;
    var pt := ts[0].tables[i];
    if k > 0 {
      RunSpares(ts, cs, os, k - 1, i);
      RunOwned(ts, cs, os, k - 1);
      StepSpares(ts[k - 1], cs[k - 1], os[k - 1], ts[k], Place(i, cs, k - 1));
    }
    forall v | Readable(pt, v) ensures Seen(ts[k].memory, pt, v) == Seen(ts[0].memory, pt, v) {
      KeptSeen(pt, ts[0].memory, ts[k].memory, v);
    }
  }

  /** What is left of a value that was written and read in `size` bytes: signed for a byte, not for a short. */
  predicate CutTo(v: int32, value: int32, size: int) {
    && (v - value) % (if size == 1 then 256 else if size == 2 then 65536 else 0x1_0000_0000) == 0
    && (size == 1 ==> -128 <= v < 128) && (size == 2 ==> 0 <= v < 65536) && (size == 4 ==> v == value)
  }

  lemma StepWrites(a: Snapshot, i: nat, addr: int32, size: int, value: int32, w: Outcome, b: Snapshot)
    requires i < |a.tables| && addr >= 0 && size in {1, 2, 4} && Step(a, Write(i, addr, size, value), w, b)
    ensures w.Accessed? && |b.tables| == |a.tables| && w.status == KernelAccess(a.tables[i], addr, size, true)
    ensures w.status == OK ==>
      var p := Physical(a.tables[i], addr);
      && 0 <= p && p + size <= MEMORY_SIZE
      && b.tables[i] == Touched(a.tables[i], addr, true) && b.memory == Store(a.memory, p, size, value)
  {
  }

  lemma StepReads(a: Snapshot, i: nat, addr: int32, size: int, r: Outcome, b: Snapshot)
    requires i < |a.tables| && addr >= 0 && size in {1, 2, 4} && Step(a, Read(i, addr, size), r, b)
    ensures r.Accessed? && r.status == KernelAccess(a.tables[i], addr, size, false)
    ensures r.status == OK ==>
      var p := Physical(a.tables[i], addr);
      0 <= p && p + size <= MEMORY_SIZE && r.value == Paging.Load(a.memory, p, size)
  {
  }

  /** What can be written can then be read, at the same place, as long as nobody else gets there. */
  lemma WrittenKept(pt: seq<Pte>, qt: seq<Pte>, m: Memory, n: Memory, addr: nat, size: int, value: int32)
    requires size in {1, 2, 4} && KernelAccess(pt, addr, size, true) == OK && qt == Touched(pt, addr, true)
    requires 0 <= Physical(pt, addr) && Physical(pt, addr) + size <= MEMORY_SIZE
    requires Kept(qt, Store(m, Physical(pt, addr), size, value), n)
    ensures KernelAccess(qt, addr, size, false) == OK && Physical(qt, addr) == Physical(pt, addr)
    ensures CutTo(Paging.Load(n, Physical(pt, addr), size), value, size)
  {
    assert KernelAccess(qt, addr, size, false) == OK && Physical(qt, addr) == Physical(pt, addr);
    hide KernelAccess, KernelStatus, Physical, Touched, Kept, Store, Paging.Load;
    LoadStore(m, Physical(pt, addr), size, value);
    KeptLoad(qt, Store(m, Physical(pt, addr), size, value), n, addr, size);
  }

  /** What a process writes it reads back, cut to the size, however long others run in between. */
  lemma WrittenRead(a: Snapshot, i: nat, addr: int32, size: int, value: int32, w: Outcome,
                    ts: seq<Snapshot>, cs: seq<Command>, os: seq<Outcome>, r: Outcome, b: Snapshot)
    requires Owned(a.bits, a.tables) && i < |a.tables| && addr >= 0 && size in {1, 2, 4}
    requires Trace(ts, cs, os) && Step(a, Write(i, addr, size, value), w, ts[0]) && w.Accessed? && w.status == OK
    requires Spared(i, cs, |cs|) && Step(ts[|cs|], Read(Place(i, cs, |cs|), addr, size), r, b)
    ensures r.Accessed? && r.status == OK && CutTo(r.value, value, size)
  {
    hide Owned, Step, Trace, Spared, Place, KernelAccess, Physical, Touched, Kept, Store, Paging.Load, CutTo;
    var n := |cs|;
    TraceEnds(ts, cs, os);
    StepWrites(a, i, addr, size, value, w, ts[0]);
    StepOwned(a, Write(i, addr, size, value), w, ts[0]);
    RunSpares(ts, cs, os, n, i);
    WrittenKept(a.tables[i], ts[0].tables[i], a.memory, ts[n].memory, addr, size, value);
    StepReads(ts[n], Place(i, cs, n), addr, size, r, b);
  }

  lemma TraceEnds(ts: seq<Snapshot>, cs: seq<Command>, os: seq<Outcome>)
    requires Trace(ts, cs, os)
    ensures |ts| == |cs| + 1
  {
  }
}
