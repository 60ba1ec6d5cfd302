// AddrSpace: the kernel's access to a process's memory, and where that memory comes from.
module AddrSpaces {
  import opened Collections
  import opened Codec
  import opened HeaderValue
  import opened Bitmaps
  import opened FileHeaders
  import opened OpenFile
  import opened Paging
  import opened FrameOwnership

  const USER_STACK_SIZE := 1024
  const MAX_STRING_ARG_LENGTH := 256

  const NOFFMAGIC := 0xbadfad

  datatype Segment = Segment(virtualAddr: int32, inFileAddr: int32, size: int32)

  datatype NoffHeader = NoffHeader(noffMagic: int32, code: Segment, initData: Segment, readonlyData: Segment,
    uninitData: Segment)

  /** What the loader takes for granted of a header: nothing negative. */
  predicate Sane(h: NoffHeader) {
    h.code.size >= 0 && h.initData.size >= 0 && h.readonlyData.size >= 0 && h.uninitData.size >= 0
  }

  function NumPages(h: NoffHeader): (n: nat)
    requires Sane(h)
    ensures n > 0
  {
    DivRoundUp(h.code.size, PAGE_SIZE) + DivRoundUp(h.initData.size, PAGE_SIZE)
      + DivRoundUp(h.uninitData.size, PAGE_SIZE)
    + DivRoundUp(USER_STACK_SIZE, PAGE_SIZE) + DivRoundUp(h.readonlyData.size, PAGE_SIZE)
  }

  /** Room for everything, with less than a page to spare for each segment. */
  lemma PagesUsed(h: NoffHeader)
    requires Sane(h)
    ensures var used := h.code.size + h.readonlyData.size + h.initData.size + h.uninitData.size + USER_STACK_SIZE;
      used <= NumPages(h) * PAGE_SIZE < used + 4 * PAGE_SIZE
  {
    RoundsUp(h.code.size, PAGE_SIZE);
    RoundsUp(h.readonlyData.size, PAGE_SIZE);
    RoundsUp(h.initData.size, PAGE_SIZE);
    RoundsUp(h.uninitData.size, PAGE_SIZE);
  }

  /** Segment `a` and segment `b` have pages of their own. */
  predicate OwnPages(a: Segment, b: Segment)
    requires a.size >= 0 && b.size >= 0
  {
    a.size == 0 || b.size == 0
    || a.virtualAddr + DivRoundUp(a.size, PAGE_SIZE) * PAGE_SIZE <= b.virtualAddr
    || b.virtualAddr + DivRoundUp(b.size, PAGE_SIZE) * PAGE_SIZE <= a.virtualAddr
  }

  /** What the loader assumes of an executable: segments page-aligned, inside the space, apart. */
  predicate Laid(h: NoffHeader) {
    && Sane(h)
    && Fits(h.code, NumPages(h)) && Fits(h.readonlyData, NumPages(h)) && Fits(h.initData, NumPages(h))
    && OwnPages(h.code, h.readonlyData) && OwnPages(h.code, h.initData) && OwnPages(h.readonlyData, h.initData)
  }

  /** A program can be loaded if it is one, and there are frames for all its pages. */
  predicate Loadable(h: NoffHeader, bits: seq<bool>)
    requires Sane(h)
  {
    h.noffMagic == NOFFMAGIC && CountClear(bits) >= NumPages(h)
  }

  /** The byte a program finds at `v` once the first `k` of its segments are loaded: from the file, and
      0 everywhere else. */
  function Image(h: NoffHeader, k: nat, file: seq<byte>, v: int): byte
    requires Laid(h) && k <= 3
  {
    if k == 0 then 0
    else
      var seg := LoadOrder(h, k - 1);
      if Within(seg, v) then FileByte(file, seg.inFileAddr + v - seg.virtualAddr) else Image(h, k - 1, file, v)
  }

  function LoadOrder(h: NoffHeader, k: nat): Segment
    requires k < 3
  {
    if k == 0 then h.code else if k == 1 then h.readonlyData else h.initData
  }

  predicate Within(seg: Segment, v: int) {
    seg.virtualAddr <= v < seg.virtualAddr + seg.size
  }

  class AddrSpace {
    const mainMemory: array<byte>    // the machine's, shared by all address spaces
    const memMap: Bitmap             // which frames are in use, likewise
    var id: int
    var pageTable: array<Pte>        // empty stands for the source's null pointer

    ghost predicate Valid()
      reads this
    {
      && mainMemory.Length == MEMORY_SIZE && memMap.Valid() && memMap.numBits == NUM_PHYS_PAGES
      && {pageTable as object} !! {mainMemory, memMap.store as object} && mainMemory as object != memMap.store
    }

    ghost function Memory(): Memory
      requires Valid()
      reads this, mainMemory
    {
      mainMemory[..]
    }

    ghost function Table(): seq<Pte>
      reads this, pageTable
    {
      pageTable[..]
    }

    /** An address space for a program, or one marked unusable by its id. */
    constructor (executable: OpenNaFile, noffH: NoffHeader, map_: Bitmap, mainMemory: array<byte>, myid: int)
      requires executable.Valid() && {mainMemory as object, map_.store} !! executable.Repr()
               && mainMemory as object != map_.store
      requires mainMemory.Length == MEMORY_SIZE && map_.Valid() && map_.numBits == NUM_PHYS_PAGES
      requires Laid(noffH)
      modifies mainMemory, map_.store
      ensures Valid() && this.mainMemory == mainMemory && memMap == map_ && fresh(pageTable)
      ensures Taken(old(map_.Bits()), map_.Bits(), Frames(Table())) && Elsewhere(Table(), old(mainMemory[..]), Memory())
      ensures id == if Loadable(noffH, old(map_.Bits())) then myid else -1
      ensures |Table()| == if noffH.noffMagic == NOFFMAGIC then NumPages(noffH) else 0
      ensures noffH.noffMagic == NOFFMAGIC ==>
                var used := noffH.code.size + noffH.readonlyData.size + noffH.initData.size + noffH.uninitData.size
                            + USER_STACK_SIZE;
                used <= |Table()| * PAGE_SIZE < used + 4 * PAGE_SIZE
      ensures !Loadable(noffH, old(map_.Bits())) ==> mainMemory[..] == old(mainMemory[..])
      ensures Loadable(noffH, old(map_.Bits())) ==>
                AllValid(Table()) && Injective(Table()) && ReadyToRun(Table(), noffH)
                && forall v :: Readable(Table(), v) ==>
                  Seen(Memory(), Table(), v) == Image(noffH, 3, old(executable.Bytes()), v)
    {
      this.mainMemory, memMap, id := mainMemory, map_, myid;
      pageTable := new Pte[0];
      new;
      hide BitsOf, Taken, Elsewhere, KernelStatus, Seen, Physical, FileBytes, Raw, Good, Distinct, Frames, Injective,
        NumPages;
      PagesUsed(noffH);
      ghost var m, before := mainMemory[..], map_.Bits();
      if noffH.noffMagic != NOFFMAGIC {
        id := -1;
        FramesNone(Table());
        TakenNone(before);
        ElsewhereSelf(Table(), m);
        return;
      }
      pageTable := new Pte[NumPages(noffH)](i => Pte(0, 0, false, false, false, false));
      var ok := InitPages();
      if !ok {
        id := -1;
        ElsewhereSelf(Table(), m);
        return;
      }
      LoadAll(executable, noffH, before, m);
    }

    /** The rest of the constructor, once every page has its frame. */
    method LoadAll(executable: OpenNaFile, noffH: NoffHeader, ghost before: seq<bool>, ghost m: Memory)
      requires Valid() && executable.Valid() && mainMemory !in executable.Repr()
               && pageTable as object !in executable.Repr()
      requires Laid(noffH) && pageTable.Length == NumPages(noffH) && forall i :: 0 <= i < pageTable.Length ==>
               Plain(pageTable[i], i)
      requires Taken(before, memMap.Bits(), Frames(Table())) && |before| == NUM_PHYS_PAGES && Memory() == m
      modifies mainMemory, pageTable
      ensures Taken(before, memMap.Bits(), Frames(Table())) && Elsewhere(Table(), m, Memory())
      ensures AllValid(Table()) && Injective(Table()) && ReadyToRun(Table(), noffH)
      ensures forall v :: Readable(Table(), v) ==>
              Seen(Memory(), Table(), v) == Image(noffH, 3, old(executable.Bytes()), v)
    {
      hide BitsOf, Elsewhere, KernelStatus, Seen, Readable, SeenAt, Physical, FileBytes, Raw, Good, Frames,
        SameFrames, Image, FileByte;
      ghost var pt, file := Table(), executable.Bytes();
      TakenInRange(before, memMap.Bits(), Frames(pt));
      FramesInjective(pt);
      hide Injective, Taken, Distinct, Laid, Plain;
      ZeroPages();
      AllClear(Memory(), pt, noffH, file);
      FramesSelf(pt);
      hide Protects, ReadyToRun;
      LoadNext(executable, noffH, 0, true, false, m, pt);
      ghost var qt := Table();
      LoadNext(executable, noffH, 1, true, false, m, pt);
      ghost var rt := Table();
      LoadNext(executable, noffH, 2, false, true, m, pt);
      LoadedReady(pt, qt, rt, Table(), noffH);
      FramesKeep(pt, Table());
      SameFramesFrames(pt, Table());
      ElsewhereSame(pt, Table(), m, Memory());
      forall v | Readable(Table(), v) ensures Seen(Memory(), Table(), v) == Image(noffH, 3, file, v) {
        SeenSame(Memory(), pt, Table(), v);
        SeenIs(Memory(), Table(), v);
      }
    }

    /** The `k`-th of the three loops that load a segment. */
    method LoadNext(executable: OpenNaFile, noffH: NoffHeader, k: nat, readOnly: bool, clearPartial: bool,
      ghost m: Memory, ghost pt: seq<Pte>)
      requires Valid() && executable.Valid() && mainMemory !in executable.Repr()
               && pageTable as object !in executable.Repr()
      requires Laid(noffH) && pageTable.Length == NumPages(noffH) && k < 3
      requires Injective(pt) && AllValid(pt) && SameFrames(pt, Table()) && Elsewhere(pt, m, Memory())
      requires forall v :: SeenAt(Memory(), pt, v) == Image(noffH, k, executable.Bytes(), v)
      modifies mainMemory, pageTable
      ensures executable.Bytes() == old(executable.Bytes())
      ensures SameFrames(pt, Table()) && Elsewhere(pt, m, Memory())
      ensures Protects(old(Table()), Table(), LoadOrder(noffH, k), LoadOrder(noffH, k).size, readOnly)
      ensures forall v :: SeenAt(Memory(), pt, v) == Image(noffH, k + 1, executable.Bytes(), v)
    {
      hide Protects, BitsOf, Elsewhere, KernelStatus, Seen, Readable, SeenAt, Physical, FileBytes, Raw, Good,
        Distinct, SameFrames, FileByte, Injective;
      ghost var n, qt, file := Memory(), Table(), executable.Bytes();
      var seg := LoadOrder(noffH, k);
      FramesKeep(pt, qt);
      StillBlankSegment(noffH, k, n, pt, qt, file);
      LoadSegment(executable, seg, readOnly, clearPartial);
      forall v ensures SeenAt(Memory(), pt, v) == Image(noffH, k + 1, file, v) {
        SeenSame(n, pt, qt, v);
        SeenSame(Memory(), pt, qt, v);
      }
      FramesTrans(pt, qt, Table());
      ElsewhereSame(pt, qt, n, Memory());
      ElsewhereTrans(pt, m, n, Memory());
    }

    /** The destructor: the frames go back to the map. */
    method Destroy()
      requires Valid() && Held(memMap.Bits(), Frames(Table()))
      modifies memMap.store
      ensures Taken(memMap.Bits(), old(memMap.Bits()), Frames(Table()))
    {
      hide BitsOf, Bit, Taken, Frames, Held;
      ghost var before, t := memMap.Bits(), Table();
      TakenNone(before);
      FramesNone(t[..0]);
      var i := 0;
      while i < pageTable.Length
        invariant 0 <= i <= pageTable.Length && Table() == t
        invariant Taken(memMap.Bits(), before, Frames(t[..i]))
      {
        if pageTable[i].valid {
          var frame := pageTable[i].physicalPage;
          ghost var bits := memMap.Bits();
          FramesStep(t, t, i);
          StillHeld(bits, before, t, i);
          memMap.Clear(frame);
          GivenBackStep(bits, before, Frames(t[..i]), frame);
        } else {
          FramesSkip(t, i);
        }
        i := i + 1;
      }
      assert t[..i] == t;
    }

    /** The page table loop of the constructor: a frame for every page, until there are no more. */
    method InitPages() returns (ok: bool)
      requires Valid() && forall i :: 0 <= i < pageTable.Length ==> !pageTable[i].valid
      modifies pageTable, memMap.store
      ensures ok <==> CountClear(old(memMap.Bits())) >= pageTable.Length
      ensures Taken(old(memMap.Bits()), memMap.Bits(), Frames(Table()))
      ensures |Frames(Table())| == Min(pageTable.Length, CountClear(old(memMap.Bits())))
      ensures forall i :: 0 <= i < Min(pageTable.Length, CountClear(old(memMap.Bits()))) ==> Plain(pageTable[i], i)
      ensures forall i :: Min(pageTable.Length, CountClear(old(memMap.Bits()))) <= i < pageTable.Length ==>
              !pageTable[i].valid
    {
      hide BitsOf, Bit, Taken, Frames;
      ghost var before := memMap.Bits();
      TakenNone(before);
      FramesNone(Table()[..0]);
      var i := 0;
      while i < pageTable.Length
        invariant 0 <= i <= pageTable.Length
        invariant forall j :: 0 <= j < i ==> Plain(pageTable[j], j)
        invariant forall j :: i <= j < pageTable.Length ==> !pageTable[j].valid
        invariant Taken(before, memMap.Bits(), Frames(Table()[..i])) && |Frames(Table()[..i])| == i
      {
        ghost var t := Table();
        var got := InitPage(i, before);
        assert Table()[..i] == t[..i];
        if !got {
          FramesPrefix(Table(), i);
          return false;
        }
        i := i + 1;
      }
      assert Table()[..i] == Table();
      TakenCount(before, memMap.Bits(), Frames(Table()));
      return true;
    }

    /** One turn of it. */
    method InitPage(i: nat, ghost before: seq<bool>) returns (got: bool)
      requires Valid() && i < pageTable.Length && !pageTable[i].valid
      requires Taken(before, memMap.Bits(), Frames(Table()[..i])) && |Frames(Table()[..i])| == i
      modifies pageTable, memMap.store
      ensures forall j :: 0 <= j < pageTable.Length && j != i ==> pageTable[j] == old(pageTable[j])
      ensures !got ==> !pageTable[i].valid && memMap.Bits() == old(memMap.Bits()) && CountClear(before) == i
      ensures got ==> Plain(pageTable[i], i) && CountClear(before) > i
      ensures got ==> Taken(before, memMap.Bits(), Frames(Table()[..i + 1])) && |Frames(Table()[..i + 1])| == i + 1
    {
      hide BitsOf, Bit, Taken, Frames;
      ghost var bits, t := memMap.Bits(), Table();
      CountClearZero(bits);
      TakenCount(before, bits, Frames(t[..i]));
      var frame := memMap.FindAndSet();
      assert Table() == t;
      pageTable[i] := pageTable[i].(virtualPage := Narrow(i), physicalPage := frame);
      if pageTable[i].physicalPage < 0 {
        return false;
      }
      TakenStep(before, bits, Frames(t[..i]), frame);
      pageTable[i] := Pte(pageTable[i].virtualPage, frame, true, false, false, false);
      FramesStep(Table(), t, i);
      return true;
    }

    method Bzero(i: nat)
      requires Valid() && i < pageTable.Length && pageTable[i].valid && 0 <= pageTable[i].physicalPage < NUM_PHYS_PAGES
      modifies mainMemory
      ensures Memory() == Patched(old(Memory()), Table(), i, Zeros())
    {
      var p := pageTable[i].physicalPage * PAGE_SIZE;
      forall k | 0 <= k < PAGE_SIZE {
        mainMemory[p + k] := 0;
      }
      assert Memory() == Patched(old(Memory()), Table(), i, Zeros());
    }

    /** Clear the whole address space, one page at a time. */
    method ZeroPages()
      requires Valid() && Injective(Table()) && forall i :: 0 <= i < pageTable.Length ==> pageTable[i].valid
      modifies mainMemory
      ensures forall v :: Readable(Table(), v) ==> Seen(Memory(), Table(), v) == 0
      ensures Elsewhere(Table(), old(Memory()), Memory())
    {
      hide Readable, Seen, Elsewhere, Patched;
      ghost var m, pt := Memory(), Table();
      ElsewhereSelf(pt, m);
      var i := 0;
      while i < pageTable.Length
        invariant 0 <= i <= pageTable.Length && Table() == pt
        invariant forall v: nat :: Readable(pt, v) && v / PAGE_SIZE < i ==> Seen(Memory(), pt, v) == 0
        invariant Elsewhere(pt, m, Memory())
      {
        ghost var n := Memory();
        Bzero(i);
        forall v: nat | Readable(pt, v) && v / PAGE_SIZE < i + 1 ensures Seen(Memory(), pt, v) == 0 {
          PatchedSeen(n, pt, i, Zeros(), v);
        }
        PatchedElsewhere(n, pt, i, Zeros());
        ElsewhereTrans(pt, m, n, Memory());
        i := i + 1;
      }
      forall v | Readable(pt, v) ensures 0 <= v / PAGE_SIZE < |pt| {
        ReadablePage(pt, v);
      }
    }

    /** Copy up to a page of the executable file to the start of page `i`. */
    method FillPage(executable: OpenNaFile, i: nat, paddr: int, numbytes: int, inFileAddr: int)
      requires Valid() && executable.Valid() && mainMemory !in executable.Repr()
      requires i < pageTable.Length && 0 <= pageTable[i].physicalPage < NUM_PHYS_PAGES
               && paddr == pageTable[i].physicalPage * PAGE_SIZE
      requires 0 < numbytes <= PAGE_SIZE && 0 <= inFileAddr && inFileAddr + numbytes <= INT_MAX
      modifies mainMemory
      ensures Memory() == Patched(old(Memory()), Table(), i, FileSlice(executable.Bytes(), inFileAddr, numbytes))
    {
      hide FileBytes, Raw, Good, Distinct;
      ghost var file, m := executable.Bytes(), Memory();
      var g := executable.ReadAt(mainMemory, paddr, numbytes, inFileAddr);
      assert executable.Bytes() == file;
      assert g > 0 ==> mainMemory[paddr..paddr + g] == file[inFileAddr..inFileAddr + g];
      assert Memory() == m[..paddr] + mainMemory[paddr..paddr + g] + m[paddr + g..];
    }

    /** One turn of a loop that loads a segment: the page that starts at `virtualAddr`. */
    method LoadPage(executable: OpenNaFile, virtualAddr: int, numbytes: int, inFileAddr: int, readOnly: bool,
      clearPartial: bool)
      requires Valid() && executable.Valid() && mainMemory !in executable.Repr()
               && pageTable as object !in executable.Repr()
      requires Injective(Table()) && AllValid(Table()) && virtualAddr >= 0 && virtualAddr % PAGE_SIZE == 0
      requires 0 < numbytes <= PAGE_SIZE && virtualAddr + numbytes <= pageTable.Length * PAGE_SIZE
      requires 0 <= inFileAddr && inFileAddr + numbytes <= INT_MAX
      requires BlankFrom(Memory(), Table(), virtualAddr)
      modifies mainMemory, pageTable
      ensures executable.Bytes() == old(executable.Bytes())
      ensures virtualAddr / PAGE_SIZE < |old(Table())|
              && Table() == Settled(old(Table()), virtualAddr / PAGE_SIZE, readOnly)
      ensures SameFrames(old(Table()), Table()) && Elsewhere(old(Table()), old(Memory()), Memory())
      ensures Filled(old(Memory()), Memory(), old(Table()), virtualAddr, numbytes, executable.Bytes(), inFileAddr)
    {
      ghost var m, pt, file := Memory(), Table(), executable.Bytes();
      hide KernelStatus, Physical, SeenAt, Patched, Elsewhere, Injective, FileByte, FileBytes, Raw, Good, Distinct,
        Touched,
        AllValid, SameFrames, Settled, Filled, BlankFrom;
      PageOK(pt, virtualAddr);
      var pagenum := virtualAddr / PAGE_SIZE;
      var status, paddr := Translate(virtualAddr, false);
      if clearPartial && numbytes < PAGE_SIZE {
        ClearBlank(pagenum, pt);
      }
      FillBlank(executable, pagenum, paddr, numbytes, inFileAddr, pt);
      Settle(pagenum, readOnly, pt);
    }

    /** Clearing a page nobody has written to. */
    method ClearBlank(i: nat, ghost pt: seq<Pte>)
      requires Valid() && i < pageTable.Length == |pt| && Table() == pt[i := pt[i].(use := true)]
      requires Injective(pt) && pt[i].valid && 0 <= pt[i].physicalPage < NUM_PHYS_PAGES
      requires BlankFrom(Memory(), pt, i * PAGE_SIZE)
      modifies mainMemory
      ensures Memory() == old(Memory())
    {
      hide SeenAt, Patched, Injective;
      PatchedSame(Memory(), pt, Table(), i, Zeros());
      StillBlank(Memory(), pt, i);
      Bzero(i);
    }

    method FillBlank(executable: OpenNaFile, i: nat, paddr: int, numbytes: int, inFileAddr: int, ghost pt: seq<Pte>)
      requires Valid() && executable.Valid() && mainMemory !in executable.Repr()
      requires i < pageTable.Length == |pt| && Table() == pt[i := pt[i].(use := true)] && Injective(pt) && pt[i].valid
      requires 0 <= pt[i].physicalPage < NUM_PHYS_PAGES && paddr == pt[i].physicalPage * PAGE_SIZE
      requires 0 < numbytes <= PAGE_SIZE && 0 <= inFileAddr && inFileAddr + numbytes <= INT_MAX
      requires BlankFrom(Memory(), pt, i * PAGE_SIZE)
      modifies mainMemory
      ensures executable.Bytes() == old(executable.Bytes()) && Elsewhere(pt, old(Memory()), Memory())
      ensures Filled(old(Memory()), Memory(), pt, i * PAGE_SIZE, numbytes, executable.Bytes(), inFileAddr)
    {
      hide KernelStatus, Physical, SeenAt, Patched, Elsewhere, Injective, FileByte, FileBytes, Raw, Good, Distinct;
      ghost var m, file := Memory(), executable.Bytes();
      PatchedSame(m, pt, Table(), i, FileSlice(file, inFileAddr, numbytes));
      FillPage(executable, i, paddr, numbytes, inFileAddr);
      PageLoaded(m, pt, i, file, inFileAddr, numbytes);
    }

    /** Undo the side effect of Translate, and protect the page if it is to be. */
    method Settle(pagenum: nat, readOnly: bool, ghost pt: seq<Pte>)
      requires pagenum < pageTable.Length == |pt| && Table() == pt[pagenum := pt[pagenum].(use := true)]
      modifies pageTable
      ensures Table() == Settled(pt, pagenum, readOnly) && SameFrames(pt, Table())
    {
      pageTable[pagenum] := pageTable[pagenum].(use := false);
      if readOnly {
        pageTable[pagenum] := pageTable[pagenum].(readOnly := true);
      }
    }

    /** A loop that loads a segment from the executable file; the three in the source differ in the flags. */
    method LoadSegment(executable: OpenNaFile, seg: Segment, readOnly: bool, clearPartial: bool)
      requires Valid() && executable.Valid() && mainMemory !in executable.Repr()
               && pageTable as object !in executable.Repr()
      requires Injective(Table()) && AllValid(Table()) && Fits(seg, pageTable.Length) && Blank(Memory(), Table(), seg)
      modifies mainMemory, pageTable
      ensures executable.Bytes() == old(executable.Bytes())
      ensures SameFrames(old(Table()), Table()) && Elsewhere(old(Table()), old(Memory()), Memory())
      ensures Protects(old(Table()), Table(), seg, seg.size, readOnly)
      ensures forall v ::
                SeenAt(Memory(), old(Table()), v)
                == Loaded(old(Memory()), old(Table()), seg, seg.size, executable.Bytes(), v)
    {
      hide Protects, Settled, KernelStatus, Physical, SeenAt, Elsewhere, FileByte, FileBytes, Raw, Good, Distinct,
        SameFrames;
      ghost var m, pt, file := Memory(), Table(), executable.Bytes();
      ElsewhereSelf(pt, m);
      FramesSelf(pt);
      ProtectsNone(pt, seg, readOnly);
      var size, inFileAddr, virtualAddr := seg.size, seg.inFileAddr, seg.virtualAddr;
      while size > 0
        invariant 0 <= size <= seg.size && inFileAddr == seg.inFileAddr + (seg.size - size)
                  && virtualAddr == seg.virtualAddr + (seg.size - size)
        invariant size > 0 ==> virtualAddr % PAGE_SIZE == 0
        invariant SameFrames(pt, Table()) && Elsewhere(pt, m, Memory()) && executable.Bytes() == file
        invariant Protects(pt, Table(), seg, seg.size - size, readOnly)
        invariant forall v :: SeenAt(Memory(), pt, v) == Loaded(m, pt, seg, seg.size - size, file, v)
      {
        ghost var n, qt := Memory(), Table();
        var numbytes := if PAGE_SIZE < size then PAGE_SIZE else size;
        FramesKeep(pt, qt);
        StillClear(m, n, pt, seg, seg.size - size, file);
        forall v ensures SeenAt(n, qt, v) == SeenAt(n, pt, v) {
          SeenSame(n, pt, qt, v);
        }
        LoadPage(executable, virtualAddr, numbytes, inFileAddr, readOnly, clearPartial);
        forall v ensures SeenAt(Memory(), qt, v) == SeenAt(Memory(), pt, v) {
          SeenSame(Memory(), pt, qt, v);
        }
        ElsewhereSame(pt, qt, n, Memory());
        ElsewhereTrans(pt, m, n, Memory());
        FramesTrans(pt, qt, Table());
        ProtectsMore(pt, qt, seg, seg.size - size, numbytes, readOnly, virtualAddr / PAGE_SIZE);
        size := size - numbytes;
        inFileAddr := inFileAddr + numbytes;
        virtualAddr := virtualAddr + numbytes;
      }
    }

    method Translate(vaddr: int, write: bool) returns (status: TranslationStatus, paddr: int)
      requires Valid() && vaddr >= 0
      modifies pageTable
      ensures status == KernelStatus(old(Table()), vaddr, write)
      ensures status == OK ==> paddr == Physical(old(Table()), vaddr) && 0 <= paddr < MEMORY_SIZE
      ensures Table() == if status == OK then Touched(old(Table()), vaddr, write) else old(Table())
    {
      paddr := 0;
      var pagenum := vaddr / PAGE_SIZE;
      if pagenum >= pageTable.Length {
        return AddressError, paddr;
      }
      if !pageTable[pagenum].valid {
        return PageFault, paddr;
      }
      if write && pageTable[pagenum].readOnly {
        return ProtectionError, paddr;
      }
      var framenum := pageTable[pagenum].physicalPage;
      if framenum >= NUM_PHYS_PAGES || framenum < 0 {
        return BusError, paddr;
      }
      WithinFrame(Table(), vaddr, 1, write);
      pageTable[pagenum] := pageTable[pagenum].(use := true);
      if write {
        pageTable[pagenum] := pageTable[pagenum].(dirty := true);
      }
      var offset := vaddr % PAGE_SIZE;
      paddr := framenum * PAGE_SIZE + offset;
      return OK, paddr;
    }

    method ReadMem(addr: int32, size: int) returns (status: TranslationStatus, value: int32)
      requires Valid() && addr >= 0 && size in {1, 2, 4}
      modifies pageTable
      ensures status == KernelAccess(old(Table()), addr, size, false)
      ensures status == OK ==> 0 <= Physical(old(Table()), addr) && Physical(old(Table()), addr) + size <= MEMORY_SIZE
      ensures status == OK ==> value == Load(Memory(), Physical(old(Table()), addr), size)
      ensures Table() == if KernelStatus(old(Table()), addr, false) == OK then Touched(old(Table()), addr, false)
              else old(Table())
    {
      value := 0;
      var physicalAddress;
      ghost var pt := Table();
      status, physicalAddress := Translate(addr, false);
      if status != OK {
        return;
      }
      if (size == 2 && addr % 2 != 0) || (size == 4 && addr % 4 != 0) {
        return AddressError, value;
      }
      WithinFrame(pt, addr, size, false);
      if size == 1 {
        var b := mainMemory[physicalAddress] as int;
        value := if b < 128 then b else b - 256;
      } else if size == 2 {
        value := mainMemory[physicalAddress] as int + 256 * (mainMemory[physicalAddress + 1] as int);
      } else {
        value := DecodeInt(mainMemory[physicalAddress..physicalAddress + 4]);
      }
    }

    method WriteMem(addr: int32, size: int, value: int32) returns (status: TranslationStatus)
      requires Valid() && addr >= 0 && size in {1, 2, 4}
      modifies pageTable, mainMemory
      ensures status == KernelAccess(old(Table()), addr, size, true)
      ensures status == OK ==> 0 <= Physical(old(Table()), addr) && Physical(old(Table()), addr) + size <= MEMORY_SIZE
      ensures Memory() == if status == OK then Store(old(Memory()), Physical(old(Table()), addr), size, value)
              else old(Memory())
      ensures Table() == if KernelStatus(old(Table()), addr, true) == OK then Touched(old(Table()), addr, true)
              else old(Table())
    {
      var physicalAddress;
      ghost var pt := Table();
      status, physicalAddress := Translate(addr, true);
      if status != OK {
        return;
      }
      if (size == 2 && addr % 2 != 0) || (size == 4 && addr % 4 != 0) {
        return AddressError;
      }
      WithinFrame(pt, addr, size, true);
      hide KernelStatus, Touched;
      ghost var m := Memory();
      var bytes := Paging.Bytes(size, value);
      forall k | 0 <= k < size {
        mainMemory[physicalAddress + k] := bytes[k];
      }
      hide Paging.Bytes;
      assert Memory() == m[..physicalAddress] + bytes + m[physicalAddress + size..];
    }

    /** Copy a buffer into the process's memory, byte by byte, until a byte cannot be written. */
    method KernelToUserBuf(vaddr: int32, length: int32, buf: array<byte>) returns (r: int)
      requires Valid() && length <= buf.Length && Countable(Table(), vaddr, length)
      requires buf != mainMemory
      modifies pageTable, mainMemory
      ensures SameMap(old(Table()), Table())
      ensures r == if WritableRange(old(Table()), vaddr, length) then length else -1
      ensures WritableRange(old(Table()), vaddr, Reach(old(Table()), vaddr, length))
      ensures Memory() == Copied(old(Memory()), old(Table()), vaddr, buf[..Reach(old(Table()), vaddr, length)])
    {
      hide Physical, KernelStatus;
      ghost var m, pt, bytes := Memory(), Table(), buf[..];
      var knt := 0;
      assert bytes[..0] == [];
      while knt < length
        invariant 0 <= knt && (knt <= length || knt == 0)
        invariant SameMap(pt, Table()) && WritableRange(pt, vaddr, knt) && buf[..] == bytes
        invariant Memory() == Copied(m, pt, vaddr, bytes[..knt])
      {
        SameTranslation(pt, Table(), vaddr + knt, true);
        TouchedSame(Table(), vaddr + knt, true);
        ghost var now := Table();
        NextIsInt(pt, vaddr, knt, length);
        var status := WriteMem(vaddr + knt, 1, Signed(buf[knt]));
        if status != OK {
          ReachStops(pt, vaddr, knt, length);
          return -1;
        }
        SameMapTrans(pt, now, Table());
        assert Writable(pt, vaddr + knt);
        CopiedStep(m, pt, vaddr, bytes, knt);
        knt := knt + 1;
      }
      ReachAll(pt, vaddr, length);
      r := length;
    }

    /** Copy a buffer out of the process's memory, likewise. */
    method UserBufToKernel(vaddr: int32, length: int32, buf: array<byte>) returns (r: int)
      requires Valid() && length <= buf.Length && Countable(Table(), vaddr, length)
      requires buf != mainMemory
      modifies pageTable, buf
      ensures SameMap(old(Table()), Table()) && Memory() == old(Memory())
      ensures r == if ReadableRange(old(Table()), vaddr, length) then length else -1
      ensures r >= 0 ==> forall j :: 0 <= j < length ==> buf[j] == SeenAt(Memory(), old(Table()), vaddr + j)
      ensures forall j :: 0 <= j < buf.Length && j >= length ==> buf[j] == old(buf[j])
    {
      hide Physical, KernelStatus;
      ghost var m, pt := Memory(), Table();
      var knt := 0;
      while knt < length
        invariant 0 <= knt && (knt <= length || knt == 0)
        invariant SameMap(pt, Table()) && ReadableRange(pt, vaddr, knt) && Memory() == m
        invariant forall j :: 0 <= j < knt ==> buf[j] == SeenAt(m, pt, vaddr + j)
        invariant forall j :: 0 <= j < buf.Length && j >= knt ==> buf[j] == old(buf[j])
      {
        SameTranslation(pt, Table(), vaddr + knt, false);
        TouchedSame(Table(), vaddr + knt, false);
        ghost var now := Table();
        NextIsInt(pt, vaddr, knt, length);
        var status, dat := ReadMem(vaddr + knt, 1);
        if status != OK {
          assert !Readable(pt, vaddr + knt);
          return -1;
        }
        assert Readable(pt, vaddr + knt);
        SameMapTrans(pt, now, Table());
        LoadByte(m, pt, vaddr + knt);
        buf[knt] := (dat % 256) as byte;
        knt := knt + 1;
      }
      r := length;
    }

    /** Copy a string out of the process's memory. */
    method UserStringToKernel(vaddr: int32, buf: array<byte>) returns (r: int)
      requires Valid() && Countable(Table(), vaddr, MAX_STRING_ARG_LENGTH)
      requires buf.Length >= MAX_STRING_ARG_LENGTH && buf != mainMemory
      modifies pageTable, buf
      ensures SameMap(old(Table()), Table()) && Memory() == old(Memory())
      ensures r != -1 ==> 0 < r < MAX_STRING_ARG_LENGTH && StringAt(Memory(), old(Table()), vaddr, r)
      ensures r != -1 ==> forall j :: 0 <= j < r ==> buf[j] == SeenAt(Memory(), old(Table()), vaddr + j)
      ensures r == -1 ==> forall n :: 0 <= n < MAX_STRING_ARG_LENGTH ==> !StringAt(Memory(), old(Table()), vaddr, n)
      ensures r != -1 ==> buf[r - 1] == 0 && forall j :: 0 <= j < r - 1 ==> buf[j] != 0
      ensures r == -1 ==>
                exists k :: 0 <= k <= 255 && ReadableRange(old(Table()), vaddr, k)
                            && (forall v :: vaddr <= v < vaddr + k ==> SeenAt(Memory(), old(Table()), v) != 0)
                            && (k == 255 || !Readable(old(Table()), vaddr + k))
    {
      hide Physical, KernelStatus;
      ghost var m, pt := Memory(), Table();
      var length := 0;
      while length < MAX_STRING_ARG_LENGTH
        invariant 0 <= length <= MAX_STRING_ARG_LENGTH
        invariant SameMap(pt, Table()) && ReadableRange(pt, vaddr, length) && Memory() == m
        invariant forall j :: 0 <= j < length ==> buf[j] == SeenAt(m, pt, vaddr + j)
        invariant forall v :: vaddr <= v < vaddr + length ==> SeenAt(m, pt, v) != 0
      {
        SameTranslation(pt, Table(), vaddr + length, false);
        TouchedSame(Table(), vaddr + length, false);
        ghost var now := Table();
        NextIsInt(pt, vaddr, length, MAX_STRING_ARG_LENGTH);
        var status, dat := ReadMem(vaddr + length, 1);
        if status != OK {
          assert !Readable(pt, vaddr + length);
          return -1;
        }
        assert Readable(pt, vaddr + length);
        SameMapTrans(pt, now, Table());
        LoadByte(m, pt, vaddr + length);
        buf[length] := (dat % 256) as byte;
        length := length + 1;
        if buf[length - 1] == 0 {
          break;
        }
      }
      if length >= MAX_STRING_ARG_LENGTH {
        assert ReadableRange(pt, vaddr, 255);
        r := -1;
      } else {
        r := length;
      }
    }

    /** What is copied in is what is copied out, over however many pages in whatever frames. */
    method CopyInOut(vaddr: int32, length: int32, from: array<byte>, into: array<byte>) returns (r: int)
      requires Valid() && Injective(Table()) && 0 <= length && Countable(Table(), vaddr, length)
      requires length <= from.Length && length <= into.Length && from != mainMemory && into != mainMemory
               && from != into
      modifies pageTable, mainMemory, into
      ensures r == if WritableRange(old(Table()), vaddr, length) then length else -1
      ensures r >= 0 ==> into[..length] == from[..length] == old(from[..length])
    {
      hide Copied, Seen, Physical, KernelStatus;
      ghost var m, pt, bytes := Memory(), Table(), from[..length];
      r := KernelToUserBuf(vaddr, length, from);
      if r >= 0 {
        ReachAll(pt, vaddr, length);
        assert from[..length] == bytes;
        WritableReadable(pt, Table(), vaddr, length);
        ghost var qt := Table();
        r := UserBufToKernel(vaddr, length, into);
        forall j | 0 <= j < length ensures into[j] == bytes[j] {
          CopiedBack(m, pt, qt, vaddr, bytes, j);
        }
        assert into[..length] == bytes;
      }
    }
  }

  /** ReadMem's and WriteMem's result: the translation's, then alignment. */
  function KernelAccess(pt: seq<Pte>, addr: nat, size: int, write: bool): TranslationStatus {
    if KernelStatus(pt, addr, write) != OK then KernelStatus(pt, addr, write)
    else if Aligned(addr, size) then OK else AddressError
  }

  /** That is: it goes through exactly if there is memory behind the address for it, and otherwise, but for the
      alignment, the first thing that is wrong is told. */
  lemma KernelAccessIs(pt: seq<Pte>, addr: nat, size: int, write: bool)
    requires size in {1, 2, 4}
    ensures var s, inside := KernelAccess(pt, addr, size, write), addr < |pt| * PAGE_SIZE;
      && (s == OK <==> Backed(pt, addr, size, write))
      && (s == AddressError <==> !inside || (Backed(pt, addr, 1, write) && addr % size != 0))
      && (s == PageFault <==> inside && !pt[addr / PAGE_SIZE].valid)
      && (s == ProtectionError <==> inside && pt[addr / PAGE_SIZE].valid && pt[addr / PAGE_SIZE].readOnly && write)
  {
    KernelAnswers(pt, addr, write);
    assert Aligned(addr, size) <==> addr % size == 0 by {
      if size == 1 {
      } else if size == 2 {
      } else {
      }
    }
    hide KernelStatus, Aligned;
  }

  /** A page just set up: in a frame of its own and not used yet. */
  predicate Plain(e: Pte, i: nat) {
    e.valid && !e.use && !e.dirty && !e.readOnly && e.virtualPage == Narrow(i) && 0 <= e.physicalPage < NUM_PHYS_PAGES
  }

  /** A page number as an int. */
  function Narrow(i: nat): int32 {
    if i <= INT_MAX then i else 0
  }

  lemma FramesNone(pt: seq<Pte>)
    requires pt == []
    ensures Frames(pt) == []
  {
  }

  lemma FramesStep(pt: seq<Pte>, was: seq<Pte>, i: nat)
    requires i < |pt| == |was| && pt[..i] == was[..i] && pt[i].valid
    ensures Frames(pt[..i + 1]) == Frames(was[..i]) + [pt[i].physicalPage]
  {
    assert pt[..i + 1][..i] == was[..i];
  }

  lemma {:induction false} FramesPrefix(pt: seq<Pte>, i: nat)
    requires i <= |pt| && forall j :: i <= j < |pt| ==> !pt[j].valid
    ensures Frames(pt) == Frames(pt[..i])
    decreases |pt|
  {
    if i < |pt| {
      FramesPrefix(pt[..|pt| - 1], i);
      assert pt[..|pt| - 1][..i] == pt[..i];
    } else {
      assert pt[..i] == pt;
    }
  }

  /** A char, as the int it is converted to. */
  function Signed(b: byte): int32 {
    if b < 128 then b as int else b as int - 256
  }

  /** The byte seen at `vaddr`, or 0 where nothing can be read. */
  function SeenAt(m: Memory, pt: seq<Pte>, vaddr: int): byte {
    if Readable(pt, vaddr) then Seen(m, pt, vaddr) else 0
  }

  /** A copy counts its address up in an int: to the end of the buffer, or to the end of the address space,
      where it stops. */
  predicate Countable(pt: seq<Pte>, vaddr: int, length: int) {
    length > 0 ==> vaddr >= 0 && (vaddr + length <= INT_MAX || |pt| <= INT_MAX / PAGE_SIZE)
  }

  lemma NextIsInt(pt: seq<Pte>, vaddr: int32, done: nat, length: int)
    requires Countable(pt, vaddr, length) && done < length
    requires ReadableRange(pt, vaddr, done) || WritableRange(pt, vaddr, done)
    ensures vaddr + done <= INT_MAX
  {
    if done > 0 {
      assert Readable(pt, vaddr + done - 1) || Writable(pt, vaddr + done - 1);
    }
  }

  /** A string of `n` bytes, the last of them its terminator, is in the process's memory at `vaddr`. */
  predicate StringAt(m: Memory, pt: seq<Pte>, vaddr: nat, n: nat) {
    && n > 0 && ReadableRange(pt, vaddr, n) && SeenAt(m, pt, vaddr + n - 1) == 0
    && forall v :: vaddr <= v < vaddr + n - 1 ==> SeenAt(m, pt, v) != 0
  }

  /** The page at `va` has nothing in it yet. */
  ghost predicate BlankFrom(m: Memory, pt: seq<Pte>, va: int) {
    forall v :: va <= v < va + PAGE_SIZE ==> SeenAt(m, pt, v) == 0
  }

  /** Bytes of a file at `va`, and the rest of what is seen as before. */
  ghost predicate Filled(m: Memory, n: Memory, pt: seq<Pte>, va: int, count: int, file: seq<byte>, pos: nat) {
    forall v :: SeenAt(n, pt, v) == if va <= v < va + count then FileByte(file, pos + v - va) else SeenAt(m, pt, v)
  }

  /** What the loader takes for granted of the places in the file. */
  predicate InFile(seg: Segment) {
    seg.size >= 0 && seg.inFileAddr >= 0 && seg.inFileAddr + seg.size <= INT_MAX
  }

  /** Segment `seg` begins at `from`, if there is something in it, and `to` is the first page boundary behind it. */
  predicate Spans(seg: Segment, from: nat, to: nat) {
    && (seg.size > 0 ==> seg.virtualAddr == from)
    && from % PAGE_SIZE == 0 && to % PAGE_SIZE == 0 && from + seg.size <= to < from + seg.size + PAGE_SIZE
  }

  /** Four segments one behind the other, page-aligned. */
  predicate EndToEnd(h: NoffHeader, a: nat, b: nat, c: nat, d: nat) {
    && InFile(h.code) && InFile(h.readonlyData) && InFile(h.initData) && h.uninitData.size >= 0 && d <= INT_MAX
    && Spans(h.code, 0, a) && Spans(h.readonlyData, a, b) && Spans(h.initData, b, c) && Spans(h.uninitData, c, d)
  }

  lemma SpansPages(seg: Segment, from: nat, to: nat)
    requires seg.size >= 0 && Spans(seg, from, to)
    ensures DivRoundUp(seg.size, PAGE_SIZE) * PAGE_SIZE == to - from
  {
    RoundsUp(seg.size, PAGE_SIZE);
  }

  /** Such a program is one that the loader takes, and its space has just the pages of its segments and the
      stack. */
  lemma EndToEndLaid(h: NoffHeader, a: nat, b: nat, c: nat, d: nat)
    requires EndToEnd(h, a, b, c, d)
    ensures Laid(h) && NumPages(h) * PAGE_SIZE == d + USER_STACK_SIZE
  {
    SpansPages(h.code, 0, a);
    SpansPages(h.readonlyData, a, b);
    SpansPages(h.initData, b, c);
    SpansPages(h.uninitData, c, d);
  }

  /** And it is loaded exactly if it is an executable and the free frames have room for that. */
  lemma LoadableExactly(h: NoffHeader, a: nat, b: nat, c: nat, d: nat, bits: seq<bool>)
    requires EndToEnd(h, a, b, c, d)
    ensures Loadable(h, bits) <==> h.noffMagic == 0xbadfad && CountClear(bits) * 128 >= d + 1024
  {
    EndToEndLaid(h, a, b, c, d);
    hide NumPages, CountClear, EndToEnd, Laid;
  }

  lemma ImageIs(h: NoffHeader, file: seq<byte>, v: int)
    requires Laid(h)
    ensures Image(h, 3, file, v) ==
      if Within(h.initData, v) then FileByte(file, h.initData.inFileAddr + v - h.initData.virtualAddr)
      else if Within(h.readonlyData, v) then FileByte(file, h.readonlyData.inFileAddr + v - h.readonlyData.virtualAddr)
      else if Within(h.code, v) then FileByte(file, h.code.inFileAddr + v - h.code.virtualAddr)
      else 0
  {
    assert Image(h, 0, file, v) == 0;
    assert Image(h, 2, file, v) == if Within(h.readonlyData, v)
      then FileByte(file, h.readonlyData.inFileAddr + v - h.readonlyData.virtualAddr) else Image(h, 1, file, v);
  }

  /** What a process that can run finds: memory for all four segments and the stack and for nothing else, and
      just its code and its read-only data protected. */
  lemma ProgramSpace(h: NoffHeader, a: nat, b: nat, c: nat, d: nat, pt: seq<Pte>, v: int)
    requires EndToEnd(h, a, b, c, d) && Laid(h) && |pt| == NumPages(h)
    requires AllValid(pt) && Injective(pt) && ReadyToRun(pt, h)
    ensures Readable(pt, v) <==> 0 <= v < d + USER_STACK_SIZE
    ensures Writable(pt, v) <==> b <= v < d + USER_STACK_SIZE
  {
    EndToEndLaid(h, a, b, c, d);
    var size := |pt| * PAGE_SIZE;
    assert size == d + USER_STACK_SIZE && b % PAGE_SIZE == 0;
    if 0 <= v < size {
      PageProtected(h, a, b, c, d, pt, v / PAGE_SIZE);
    }
    hide Laid, NumPages, EndToEnd, ReadyToRun;
    BelowBoundary(v, b);
    BelowBoundary(v, size);
  }

  lemma PageProtected(h: NoffHeader, a: nat, b: nat, c: nat, d: nat, pt: seq<Pte>, i: nat)
    requires EndToEnd(h, a, b, c, d) && ReadyToRun(pt, h) && i < |pt|
    ensures pt[i].readOnly <==> i * PAGE_SIZE < b
  {
  }

  lemma BelowBoundary(v: int, to: nat)
    requires to % PAGE_SIZE == 0
    ensures v >= 0 ==> (v < to <==> v / PAGE_SIZE * PAGE_SIZE < to) && (v < to <==> v / PAGE_SIZE < to / PAGE_SIZE)
  {
  }

  /** And in it the code, the read-only and the initialised data from the file, and zeros in the uninitialised data
      and the stack. */
  lemma ProgramFinds(h: NoffHeader, a: nat, b: nat, c: nat, d: nat, file: seq<byte>, m: Memory, pt: seq<Pte>, v: int)
    requires EndToEnd(h, a, b, c, d) && Laid(h) && |pt| == NumPages(h)
    requires AllValid(pt) && Injective(pt) && ReadyToRun(pt, h)
    requires forall u :: Readable(pt, u) ==> Seen(m, pt, u) == Image(h, 3, file, u)
    ensures 0 <= v < d + USER_STACK_SIZE ==> Readable(pt, v)
    ensures 0 <= v < h.code.size ==> Seen(m, pt, v) == FileByte(file, h.code.inFileAddr + v)
    ensures 0 <= v - a < h.readonlyData.size ==> Seen(m, pt, v) == FileByte(file, h.readonlyData.inFileAddr + (v - a))
    ensures 0 <= v - b < h.initData.size ==> Seen(m, pt, v) == FileByte(file, h.initData.inFileAddr + (v - b))
    ensures c <= v < d + USER_STACK_SIZE ==> Seen(m, pt, v) == 0
  {
    hide Laid, NumPages, AllValid, Injective, ReadyToRun, Readable, Seen, Image, FileByte;
    ProgramSpace(h, a, b, c, d, pt, v);
    ImageIs(h, file, v);
  }

  /** There is at most one such length, so a string is copied exactly if it is shorter than the limit:
      one whose terminator is the last byte looked at is refused although the terminator was found. */
  lemma StringUnique(m: Memory, pt: seq<Pte>, vaddr: nat, n: nat, k: nat)
    requires StringAt(m, pt, vaddr, n) && StringAt(m, pt, vaddr, k)
    ensures n == k
  {
    assert SeenAt(m, pt, vaddr + n - 1) == 0 == SeenAt(m, pt, vaddr + k - 1);
  }

  /** How many bytes from `vaddr` on, `length` at most, can be written before one cannot. */
  function Reach(pt: seq<Pte>, vaddr: int, length: int): (n: nat)
    ensures n == 0 || n <= length
    decreases length
  {
    if length <= 0 || !Writable(pt, vaddr) then 0 else 1 + Reach(pt, vaddr + 1, length - 1)
  }

  lemma {:induction false} ReachStops(pt: seq<Pte>, vaddr: int, n: nat, length: int)
    requires n < length && WritableRange(pt, vaddr, n) && !Writable(pt, vaddr + n)
    ensures Reach(pt, vaddr, length) == n
    decreases n
  {
    if n > 0 {
      ReachStops(pt, vaddr + 1, n - 1, length - 1);
    }
  }

  lemma {:induction false} ReachAll(pt: seq<Pte>, vaddr: int, length: int)
    requires WritableRange(pt, vaddr, length)
    ensures Reach(pt, vaddr, length) == if length > 0 then length else 0
    decreases length
  {
    if length > 0 {
      ReachAll(pt, vaddr + 1, length - 1);
    }
  }

  lemma TouchedSame(pt: seq<Pte>, vaddr: nat, write: bool)
    ensures vaddr / PAGE_SIZE < |pt| ==> SameMap(pt, Touched(pt, vaddr, write))
  {
  }

  lemma SameMapTrans(a: seq<Pte>, b: seq<Pte>, c: seq<Pte>)
    requires SameMap(a, b) && SameMap(b, c)
    ensures SameMap(a, c)
  {
  }

  lemma LoadByte(m: Memory, pt: seq<Pte>, vaddr: nat)
    requires Readable(pt, vaddr)
    ensures 0 <= Physical(pt, vaddr) < MEMORY_SIZE
    ensures (Load(m, Physical(pt, vaddr), 1) % 256) as byte == SeenAt(m, pt, vaddr)
  {
    PhysicalRange(pt, vaddr);
  }

  lemma CopiedStep(m: Memory, pt: seq<Pte>, vaddr: int, buf: seq<byte>, k: nat)
    requires k < |buf| && WritableRange(pt, vaddr, k + 1) && Writable(pt, vaddr + k)
    ensures 0 <= Physical(pt, vaddr + k) < MEMORY_SIZE
    ensures Copied(m, pt, vaddr, buf[..k + 1]) ==
            Store(Copied(m, pt, vaddr, buf[..k]), Physical(pt, vaddr + k), 1, Signed(buf[k]))
  {
    assert buf[..k + 1][..k] == buf[..k];
    assert Writable(pt, vaddr + k);
    WithinFrame(pt, vaddr + k, 1, true);
  }

  function Zeros(): (z: seq<byte>)
    ensures |z| == PAGE_SIZE && forall i :: 0 <= i < PAGE_SIZE ==> z[i] == 0
  {
    seq(PAGE_SIZE, i => 0 as byte)
  }

  lemma ReadablePage(pt: seq<Pte>, v: int)
    requires Readable(pt, v)
    ensures 0 <= v / PAGE_SIZE < |pt|
  {
  }

  lemma ElsewhereSelf(pt: seq<Pte>, m: Memory)
    ensures Elsewhere(pt, m, m)
  {
  }

  /** Byte `p` of a file, or 0 beyond its end. */
  function FileByte(file: seq<byte>, p: int): byte {
    if 0 <= p < |file| then file[p] else 0
  }

  predicate AllValid(pt: seq<Pte>) {
    forall i :: 0 <= i < |pt| ==> pt[i].valid
  }

  /** What the loader asserts and assumes of a segment, if there is something in it: page-aligned, inside the
      space. */
  predicate Fits(seg: Segment, numPages: nat) {
    seg.size == 0 || InSpace(seg, numPages)
  }

  predicate InSpace(seg: Segment, numPages: nat) {
    && seg.size > 0 && seg.virtualAddr >= 0 && seg.virtualAddr % PAGE_SIZE == 0
    && seg.virtualAddr + seg.size <= numPages * PAGE_SIZE
    && seg.inFileAddr >= 0 && seg.inFileAddr + seg.size <= INT_MAX && seg.virtualAddr + seg.size <= INT_MAX
  }

  /** The pages of a segment are still clear. */
  ghost predicate Blank(m: Memory, pt: seq<Pte>, seg: Segment) {
    var size := if seg.size >= 0 then seg.size else 0;
    forall v | seg.virtualAddr <= v < seg.virtualAddr + DivRoundUp(size, PAGE_SIZE) * PAGE_SIZE ::
      SeenAt(m, pt, v) == 0
  }

  /** What is seen at `v` once the first `done` bytes of a segment have been loaded. */
  function Loaded(m: Memory, pt: seq<Pte>, seg: Segment, done: int, file: seq<byte>, v: int): byte
  {
    if seg.virtualAddr <= v < seg.virtualAddr + done then FileByte(file, seg.inFileAddr + v - seg.virtualAddr)
      else SeenAt(m, pt, v)
  }

  /** The same pages in the same frames; a page may have become read-only. */
  ghost predicate SameFrames(pt: seq<Pte>, qt: seq<Pte>) {
    |qt| == |pt| && forall i :: 0 <= i < |pt| ==>
      qt[i] == pt[i].(readOnly := qt[i].readOnly, use := qt[i].use) && (qt[i].use ==> pt[i].use)
  }

  /** One page loaded: the use bit that Translate set is cleared again, and the page may be protected. */
  function Settled(pt: seq<Pte>, page: nat, readOnly: bool): (qt: seq<Pte>)
    requires page < |pt|
    ensures |qt| == |pt|
  {
    pt[page := pt[page].(use := false, readOnly := pt[page].readOnly || readOnly)]
  }

  /** Does page `i` start in the first `done` bytes of a segment? */
  predicate PageIn(seg: Segment, done: int, i: nat) {
    seg.virtualAddr <= i * PAGE_SIZE < seg.virtualAddr + done
  }

  /** With `readOnly`, just the pages that hold the first `done` bytes of a segment have been protected. */
  ghost predicate Protects(pt: seq<Pte>, qt: seq<Pte>, seg: Segment, done: int, readOnly: bool) {
    |qt| == |pt| && forall i :: 0 <= i < |pt| ==>
      (qt[i].readOnly <==> pt[i].readOnly || (readOnly && PageIn(seg, done, i)))
  }

  lemma ProtectsNone(pt: seq<Pte>, seg: Segment, readOnly: bool)
    ensures Protects(pt, pt, seg, 0, readOnly)
  {
  }

  lemma ProtectsMore(pt: seq<Pte>, qt: seq<Pte>, seg: Segment, done: int, n: int, readOnly: bool, page: nat)
    requires Protects(pt, qt, seg, done, readOnly) && page < |qt| && page * PAGE_SIZE == seg.virtualAddr + done
             && 0 < n <= PAGE_SIZE && done >= 0
    ensures Protects(pt, Settled(qt, page, readOnly), seg, done + n, readOnly)
  {
    forall i | 0 <= i < |pt| ensures PageIn(seg, done + n, i) <==> PageIn(seg, done, i) || i == page {
    }
  }

  /** A page table as a program finds it: nothing used or dirty, and write-protected just where its code and
      its read-only data are. */
  ghost predicate ReadyToRun(pt: seq<Pte>, h: NoffHeader) {
    forall i :: 0 <= i < |pt| ==>
      && pt[i].virtualPage == Narrow(i) && pt[i].valid && !pt[i].use && !pt[i].dirty
      && (pt[i].readOnly <==> PageIn(h.code, h.code.size, i) || PageIn(h.readonlyData, h.readonlyData.size, i))
  }

  lemma LoadedReady(pt: seq<Pte>, qt: seq<Pte>, rt: seq<Pte>, last: seq<Pte>, h: NoffHeader)
    requires forall i :: 0 <= i < |pt| ==> Plain(pt[i], i)
    requires SameFrames(pt, last)
    requires Protects(pt, qt, h.code, h.code.size, true) && Protects(qt, rt, h.readonlyData, h.readonlyData.size, true)
    requires Protects(rt, last, h.initData, h.initData.size, false)
    ensures ReadyToRun(last, h)
  {
    hide PageIn;
    forall i | 0 <= i < |last| ensures
      && last[i].virtualPage == Narrow(i) && last[i].valid && !last[i].use && !last[i].dirty
      && (last[i].readOnly <==> PageIn(h.code, h.code.size, i) || PageIn(h.readonlyData, h.readonlyData.size, i))
    {
      assert Plain(pt[i], i);
      assert rt[i].readOnly <==> qt[i].readOnly || PageIn(h.readonlyData, h.readonlyData.size, i);
    }
  }

  /** What reading `n` bytes at `pos` of a file gives. */
  function FileSlice(file: seq<byte>, pos: nat, n: nat): (s: seq<byte>)
    ensures |s| <= n
  {
    if pos >= |file| then [] else file[pos..pos + Min(n, |file| - pos)]
  }

  /** Clearing a page nobody has written to changes nothing. */
  lemma StillBlank(m: Memory, pt: seq<Pte>, i: nat)
    requires Injective(pt) && i < |pt| && pt[i].valid
    requires forall v :: i * PAGE_SIZE <= v < i * PAGE_SIZE + PAGE_SIZE ==> SeenAt(m, pt, v) == 0
    ensures Patched(m, pt, i, Zeros()) == m
  {
    var p := pt[i].physicalPage * PAGE_SIZE;
    forall x | p <= x < p + PAGE_SIZE ensures m[x] == 0 {
      var v := i * PAGE_SIZE + (x - p);
      PageOf(v, i);
      assert SeenAt(m, pt, v) == 0 && Readable(pt, v);
    }
    forall x | 0 <= x < MEMORY_SIZE ensures Patched(m, pt, i, Zeros())[x] == m[x] {
    }
  }

  lemma PatchedSame(m: Memory, pt: seq<Pte>, qt: seq<Pte>, i: nat, bytes: seq<byte>)
    requires i < |pt| == |qt| && qt[i].physicalPage == pt[i].physicalPage && 0 <= pt[i].physicalPage < NUM_PHYS_PAGES
             && |bytes| <= PAGE_SIZE
    ensures Patched(m, qt, i, bytes) == Patched(m, pt, i, bytes)
  {
  }

  lemma PageOK(pt: seq<Pte>, va: int)
    requires Injective(pt) && AllValid(pt) && 0 <= va < |pt| * PAGE_SIZE && va % PAGE_SIZE == 0
    ensures 0 <= va / PAGE_SIZE < |pt| && KernelStatus(pt, va, false) == OK
    ensures 0 <= pt[va / PAGE_SIZE].physicalPage < NUM_PHYS_PAGES
            && Physical(pt, va) == pt[va / PAGE_SIZE].physicalPage * PAGE_SIZE
    ensures va == va / PAGE_SIZE * PAGE_SIZE
            && Touched(pt, va, false) == pt[va / PAGE_SIZE := pt[va / PAGE_SIZE].(use := true)]
  {
  }

  lemma PageLoaded(m: Memory, pt: seq<Pte>, i: nat, file: seq<byte>, pos: nat, n: nat)
    requires Injective(pt) && i < |pt| && pt[i].valid && n <= PAGE_SIZE
    requires forall v :: i * PAGE_SIZE <= v < i * PAGE_SIZE + PAGE_SIZE ==> SeenAt(m, pt, v) == 0
    ensures Elsewhere(pt, m, Patched(m, pt, i, FileSlice(file, pos, n)))
    ensures forall v :: SeenAt(Patched(m, pt, i, FileSlice(file, pos, n)), pt, v) ==
                        if i * PAGE_SIZE <= v < i * PAGE_SIZE + n then FileByte(file, pos + v - i * PAGE_SIZE)
                          else SeenAt(m, pt, v)
  {
    var u := Patched(m, pt, i, FileSlice(file, pos, n));
    PatchedElsewhere(m, pt, i, FileSlice(file, pos, n));
    forall v ensures SeenAt(u, pt, v) == if i * PAGE_SIZE <= v < i * PAGE_SIZE + n then
      FileByte(file, pos + v - i * PAGE_SIZE) else SeenAt(m, pt, v) {
      PageLoadedAt(m, pt, i, file, pos, n, v);
    }
  }

  lemma PageLoadedAt(m: Memory, pt: seq<Pte>, i: nat, file: seq<byte>, pos: nat, n: nat, v: int)
    requires Injective(pt) && i < |pt| && pt[i].valid && n <= PAGE_SIZE
    requires i * PAGE_SIZE <= v < i * PAGE_SIZE + PAGE_SIZE ==> SeenAt(m, pt, v) == 0
    ensures SeenAt(Patched(m, pt, i, FileSlice(file, pos, n)), pt, v) ==
            if i * PAGE_SIZE <= v < i * PAGE_SIZE + n then FileByte(file, pos + v - i * PAGE_SIZE) else SeenAt(m, pt, v)
  {
    PageOf(v, i);
    var k, bytes := v - i * PAGE_SIZE, FileSlice(file, pos, n);
    if v / PAGE_SIZE == i {
      assert Readable(pt, v);
      PatchedSeen(m, pt, i, bytes, v);
      SliceByte(file, pos, n, k);
      assert pos + k == pos + v - i * PAGE_SIZE;
    } else if Readable(pt, v) {
      PatchedSeen(m, pt, i, bytes, v);
    }
  }

  lemma SliceByte(file: seq<byte>, pos: nat, n: nat, k: nat)
    ensures k < |FileSlice(file, pos, n)| ==> k < n && FileSlice(file, pos, n)[k] == FileByte(file, pos + k)
    ensures |FileSlice(file, pos, n)| <= k < n ==> FileByte(file, pos + k) == 0
  {
  }

  lemma PageOf(v: int, i: nat)
    ensures i * PAGE_SIZE <= v < i * PAGE_SIZE + PAGE_SIZE <==> v / PAGE_SIZE == i
    ensures v / PAGE_SIZE == i ==> v % PAGE_SIZE == v - i * PAGE_SIZE
  {
  }

  lemma FramesSelf(pt: seq<Pte>)
    ensures SameFrames(pt, pt)
  {
  }

  lemma FramesTrans(a: seq<Pte>, b: seq<Pte>, c: seq<Pte>)
    requires SameFrames(a, b) && SameFrames(b, c)
    ensures SameFrames(a, c)
  {
  }

  lemma FramesKeep(pt: seq<Pte>, qt: seq<Pte>)
    requires SameFrames(pt, qt)
    ensures |qt| == |pt| && (Injective(pt) ==> Injective(qt)) && (AllValid(pt) ==> AllValid(qt))
  {
  }

  lemma SeenSame(m: Memory, pt: seq<Pte>, qt: seq<Pte>, v: int)
    requires SameFrames(pt, qt)
    ensures SeenAt(m, qt, v) == SeenAt(m, pt, v)
  {
  }

  lemma ElsewhereSame(pt: seq<Pte>, qt: seq<Pte>, m: Memory, n: Memory)
    requires SameFrames(pt, qt)
    ensures Elsewhere(pt, m, n) <==> Elsewhere(qt, m, n)
  {
    forall f ensures InFrames(pt, f) == InFrames(qt, f) {
      if InFrames(pt, f) {
        var i :| 0 <= i < |pt| && pt[i].valid && pt[i].physicalPage == f;
        assert qt[i].valid && qt[i].physicalPage == f;
      }
    }
  }

  /** The pages of a segment not reached yet are still clear. */
  lemma StillClear(m: Memory, n: Memory, pt: seq<Pte>, seg: Segment, done: int, file: seq<byte>)
    requires seg.inFileAddr >= 0 && 0 <= done < seg.size && done % PAGE_SIZE == 0 && Blank(m, pt, seg)
    requires forall v :: SeenAt(n, pt, v) == Loaded(m, pt, seg, done, file, v)
    ensures forall v :: seg.virtualAddr + done <= v < seg.virtualAddr + done + PAGE_SIZE ==> SeenAt(n, pt, v) == 0
  {
    assert done + PAGE_SIZE <= DivRoundUp(seg.size, PAGE_SIZE) * PAGE_SIZE;
  }

  lemma AllClear(m: Memory, pt: seq<Pte>, h: NoffHeader, file: seq<byte>)
    requires Laid(h) && forall v :: Readable(pt, v) ==> Seen(m, pt, v) == 0
    ensures forall v :: SeenAt(m, pt, v) == Image(h, 0, file, v)
  {
  }

  lemma SeenIs(m: Memory, pt: seq<Pte>, v: int)
    requires Readable(pt, v)
    ensures SeenAt(m, pt, v) == Seen(m, pt, v)
  {
  }

  /** The pages of a segment not loaded yet are clear, because no other segment has a part in them. */
  lemma StillBlankSegment(h: NoffHeader, k: nat, m: Memory, pt: seq<Pte>, qt: seq<Pte>, file: seq<byte>)
    requires Laid(h) && k < 3 && SameFrames(pt, qt)
    requires forall v :: SeenAt(m, pt, v) == Image(h, k, file, v)
    ensures Fits(LoadOrder(h, k), NumPages(h)) && Blank(m, qt, LoadOrder(h, k))
  {
    hide SeenAt, SameFrames;
    var seg := LoadOrder(h, k);
    forall v | seg.virtualAddr <= v < seg.virtualAddr + DivRoundUp(seg.size, PAGE_SIZE) * PAGE_SIZE
      ensures SeenAt(m, qt, v) == 0 {
      SeenSame(m, pt, qt, v);
      ImageBlank(h, k, file, v);
    }
  }

  lemma ImageBlank(h: NoffHeader, k: nat, file: seq<byte>, v: int)
    requires Laid(h) && k < 3
    requires var seg := LoadOrder(h, k);
      seg.virtualAddr <= v < seg.virtualAddr + DivRoundUp(seg.size, PAGE_SIZE) * PAGE_SIZE
    ensures Image(h, k, file, v) == 0
  {
    Uncovered(h.code);
    Uncovered(h.readonlyData);
    if k > 0 {
      assert !Within(h.code, v);
      assert Image(h, 1, file, v) == Image(h, 0, file, v);
    }
    if k > 1 {
      assert !Within(h.readonlyData, v);
      assert Image(h, 2, file, v) == Image(h, 1, file, v);
    }
  }

  lemma Uncovered(seg: Segment)
    requires seg.size >= 0
    ensures seg.size <= DivRoundUp(seg.size, PAGE_SIZE) * PAGE_SIZE
  {
  }

  lemma {:induction false} SameFramesFrames(pt: seq<Pte>, qt: seq<Pte>)
    requires SameFrames(pt, qt)
    ensures Frames(qt) == Frames(pt)
  {
    if pt != [] {
      assert pt[|pt| - 1].valid == qt[|pt| - 1].valid;
      SameFramesFrames(pt[..|pt| - 1], qt[..|pt| - 1]);
    }
  }

  /** Frames all different and all marked: what every address space has. */
  ghost predicate Held(bits: seq<bool>, frames: seq<int>) {
    Distinct(frames) && forall f :: f in frames ==> 0 <= f < |bits| && bits[f]
  }

  lemma FramesSkip(pt: seq<Pte>, i: nat)
    requires i < |pt| && !pt[i].valid
    ensures Frames(pt[..i + 1]) == Frames(pt[..i])
  {
    assert pt[..i + 1][..i] == pt[..i];
  }

  lemma {:induction false} FramesGrow(pt: seq<Pte>, i: nat)
    requires i <= |pt|
    ensures |Frames(pt[..i])| <= |Frames(pt)| && Frames(pt)[..|Frames(pt[..i])|] == Frames(pt[..i])
    decreases |pt|
  {
    if i < |pt| {
      FramesGrow(pt[..|pt| - 1], i);
      assert pt[..|pt| - 1][..i] == pt[..i];
    } else {
      assert pt[..i] == pt;
    }
  }

  /** The frame of page `i` is still marked when its turn comes. */
  lemma StillHeld(bits: seq<bool>, before: seq<bool>, pt: seq<Pte>, i: nat)
    requires Held(before, Frames(pt)) && i < |pt| && pt[i].valid && Taken(bits, before, Frames(pt[..i]))
    ensures 0 <= pt[i].physicalPage < |bits| && bits[pt[i].physicalPage] && pt[i].physicalPage !in Frames(pt[..i])
  {
    FramesStep(pt, pt, i);
    FramesGrow(pt, i + 1);
    hide Frames;
    NextDistinct(Frames(pt), Frames(pt[..i]), pt[i].physicalPage);
  }

  lemma NextDistinct(all: seq<int>, some: seq<int>, x: int)
    requires Distinct(all) && |some| < |all| && all[..|some| + 1] == some + [x]
    ensures x in all && x !in some
  {
    assert all[|some|] == (some + [x])[|some|];
    forall k | 0 <= k < |some| ensures some[k] == all[k] {
      assert all[k] == (some + [x])[k];
    }
  }

  lemma WritableReadable(pt: seq<Pte>, qt: seq<Pte>, vaddr: int, length: int)
    requires SameMap(pt, qt) && WritableRange(pt, vaddr, length)
    ensures ReadableRange(qt, vaddr, length)
  {
    forall v | vaddr <= v < vaddr + length ensures Readable(qt, v) {
      assert Writable(pt, v);
      SameTranslation(pt, qt, v, false);
    }
  }

  lemma CopiedBack(m: Memory, pt: seq<Pte>, qt: seq<Pte>, vaddr: int, bytes: seq<byte>, j: nat)
    requires Injective(pt) && SameMap(pt, qt) && WritableRange(pt, vaddr, |bytes|) && j < |bytes|
    ensures SeenAt(Copied(m, pt, vaddr, bytes), qt, vaddr + j) == bytes[j]
  {
    assert Writable(pt, vaddr + j) && Readable(pt, vaddr + j);
    SameTranslation(pt, qt, vaddr + j, false);
    CopiedSeen(m, pt, vaddr, bytes, vaddr + j);
  }
}
