// Virtual memory: page tables, the two translators, and what a process sees of physical memory.
module Paging {
  import opened Codec

  const PAGE_SIZE := 128
  const NUM_PHYS_PAGES := 128
  const MEMORY_SIZE := NUM_PHYS_PAGES * PAGE_SIZE

  datatype Pte = Pte(virtualPage: int32, physicalPage: int32, valid: bool, use: bool, dirty: bool, readOnly: bool)

  type Memory = m: seq<byte> | |m| == MEMORY_SIZE witness seq(MEMORY_SIZE, i => 0 as byte)

  /** The kernel's results of a translation. */
  datatype TranslationStatus = OK | AddressError | PageFault | ProtectionError | BusError

  /** The machine's. */
  datatype ExceptionType =
    | NoException | SyscallException | PageFaultException | ReadOnlyException | BusErrorException
    | AddressErrorException | OverflowException | IllegalInstrException

  // ---- AddrSpace::Translate --------------------------------------------------------------------------

  function KernelStatus(pt: seq<Pte>, vaddr: nat, write: bool): TranslationStatus {
    var pagenum := vaddr / PAGE_SIZE;
    if pagenum >= |pt| then AddressError
    else if !pt[pagenum].valid then PageFault
    else if write && pt[pagenum].readOnly then ProtectionError
    else
      var framenum := pt[pagenum].physicalPage;
      if framenum >= NUM_PHYS_PAGES || framenum < 0 then BusError else OK
  }

  /** The physical address of a virtual one. */
  function Physical(pt: seq<Pte>, vaddr: nat): (p: int) {
    if vaddr / PAGE_SIZE < |pt| then pt[vaddr / PAGE_SIZE].physicalPage * PAGE_SIZE + vaddr % PAGE_SIZE else -1
  }

  /** The page table after a successful access. */
  function Touched(pt: seq<Pte>, vaddr: nat, write: bool): (t: seq<Pte>)
    requires vaddr / PAGE_SIZE < |pt|
    ensures |t| == |pt|
  {
    var e := pt[vaddr / PAGE_SIZE];
    pt[vaddr / PAGE_SIZE := e.(use := true, dirty := e.dirty || write)]
  }

  // ---- Machine::Translate ------------------------------------------------------------------------------

  predicate Aligned(vaddr: int, size: int) {
    (size == 4 ==> vaddr % 4 == 0) && (size == 2 ==> vaddr % 2 == 0)
  }

  function HardwareStatus(pt: seq<Pte>, virtAddr: int32, size: int, writing: bool): ExceptionType {
    if !Aligned(virtAddr, size) then AddressErrorException
    else
      var vpn := Unsigned(virtAddr) / PAGE_SIZE;
      if vpn >= |pt| then AddressErrorException
      else if !pt[vpn].valid then PageFaultException
      else if pt[vpn].readOnly && writing then ReadOnlyException
      else if Unsigned(pt[vpn].physicalPage) >= NUM_PHYS_PAGES then BusErrorException
      else NoException
  }

  /** Is there memory behind an address, for this kind of access? */
  predicate Backed(pt: seq<Pte>, vaddr: nat, size: int, write: bool)
    requires size in {1, 2, 4}
  {
    && vaddr % size == 0 && vaddr < |pt| * PAGE_SIZE
    && var e := pt[vaddr / PAGE_SIZE]; e.valid && !(write && e.readOnly) && 0 <= e.physicalPage < NUM_PHYS_PAGES
  }

  /** The one right answer to an access. */
  predicate Answer(e: ExceptionType, pt: seq<Pte>, vaddr: nat, size: int, write: bool)
    requires size in {1, 2, 4}
  {
    if vaddr % size != 0 || vaddr >= |pt| * PAGE_SIZE then e == AddressErrorException
    else
      var p := pt[vaddr / PAGE_SIZE];
      && (e == NoException <==> Backed(pt, vaddr, size, write))
      && (e == PageFaultException <==> !p.valid)
      && (e == ReadOnlyException <==> p.valid && p.readOnly && write)
      && (e == BusErrorException <==> p.valid && !(p.readOnly && write) && !(0 <= p.physicalPage < NUM_PHYS_PAGES))
  }

  lemma HardwareAnswers(pt: seq<Pte>, virtAddr: int32, size: int, writing: bool)
    requires size in {1, 2, 4}
    ensures Answer(HardwareStatus(pt, virtAddr, size, writing), pt, Unsigned(virtAddr), size, writing)
  {
    AlignedIs(virtAddr, size);
    hide Aligned;
  }

  lemma AlignedIs(virtAddr: int32, size: int)
    requires size in {1, 2, 4}
    ensures Aligned(virtAddr, size) <==> Unsigned(virtAddr) % size == 0
  {
    if size == 1 {
    } else if size == 2 {
    } else {
    }
  }

  lemma KernelAnswers(pt: seq<Pte>, vaddr: nat, write: bool)
    ensures var s := KernelStatus(pt, vaddr, write);
      && Answer(Corresponding(s), pt, vaddr, 1, write)
      && (s == OK <==> Backed(pt, vaddr, 1, write)) && (s == AddressError <==> vaddr >= |pt| * PAGE_SIZE)
      && (s == PageFault <==> vaddr < |pt| * PAGE_SIZE && !pt[vaddr / PAGE_SIZE].valid)
      && (s == ProtectionError <==>
            vaddr < |pt| * PAGE_SIZE && pt[vaddr / PAGE_SIZE].valid && pt[vaddr / PAGE_SIZE].readOnly && write)
  {
  }

  /** Which exception corresponds to which status. */
  function Corresponding(s: TranslationStatus): ExceptionType {
    match s
    case OK => NoException
    case AddressError => AddressErrorException
    case PageFault => PageFaultException
    case ProtectionError => ReadOnlyException
    case BusError => BusErrorException
  }

  /** What a successful translation leaves: the physical address, and the page table. */
  datatype Translation = Translation(paddr: int, pt: seq<Pte>)

  function KernelTranslation(pt: seq<Pte>, vaddr: nat, write: bool): Translation
    requires KernelStatus(pt, vaddr, write) == OK
  {
    var pagenum, offset := vaddr / PAGE_SIZE, vaddr % PAGE_SIZE;
    var e := pt[pagenum].(use := true);
    Translation(pt[pagenum].physicalPage * PAGE_SIZE + offset, pt[pagenum := if write then e.(dirty := true) else e])
  }

  function HardwareTranslation(pt: seq<Pte>, virtAddr: int32, size: int, writing: bool): Translation
    requires HardwareStatus(pt, virtAddr, size, writing) == NoException
  {
    var vpn, offset := Unsigned(virtAddr) / PAGE_SIZE, Unsigned(virtAddr) % PAGE_SIZE;
    var entry := pt[vpn].(use := true);
    Translation(Unsigned(pt[vpn].physicalPage) * PAGE_SIZE + offset,
      pt[vpn := if writing then entry.(dirty := true) else entry])
  }

  /** The two translators, written independently, agree on every aligned nonnegative address: on the outcome,
      the physical address, and the use and dirty bits; and both methods are held to just that. */
  lemma TranslatorsAgree(pt: seq<Pte>, vaddr: int32, size: int, write: bool)
    requires vaddr >= 0 && Aligned(vaddr, size)
    ensures HardwareStatus(pt, vaddr, size, write) == Corresponding(KernelStatus(pt, vaddr, write))
    ensures KernelStatus(pt, vaddr, write) == OK ==>
      HardwareTranslation(pt, vaddr, size, write) == KernelTranslation(pt, vaddr, write)
      == Translation(Physical(pt, vaddr), Touched(pt, vaddr, write))
  {
  }

  /** On the others they agree on the outcome exactly if the page is not in the table at all: the kernel
      looks at the alignment only after it has translated, when it has already set the use bit. */
  lemma MisalignedAgree(pt: seq<Pte>, vaddr: int32, size: int, write: bool)
    requires vaddr >= 0 && !Aligned(vaddr, size)
    ensures HardwareStatus(pt, vaddr, size, write) == AddressErrorException
    ensures HardwareStatus(pt, vaddr, size, write) == Corresponding(KernelStatus(pt, vaddr, write))
            <==> vaddr / PAGE_SIZE >= |pt|
  {
  }

  /** What the hardware lets through, the kernel would, and at the same place. */
  lemma HardwareLetsThrough(pt: seq<Pte>, virtAddr: int32, size: int, writing: bool)
    requires HardwareStatus(pt, virtAddr, size, writing) == NoException
    ensures Aligned(Unsigned(virtAddr), size) && KernelStatus(pt, Unsigned(virtAddr), writing) == OK
  {
  }

  /** No aligned access crosses a frame, so none leaves physical memory or the page it starts in. */
  lemma WithinFrame(pt: seq<Pte>, vaddr: nat, size: int, write: bool)
    requires size in {1, 2, 4} && Aligned(vaddr, size) && KernelStatus(pt, vaddr, write) == OK
    ensures vaddr % PAGE_SIZE + size <= PAGE_SIZE
    ensures 0 <= Physical(pt, vaddr) && Physical(pt, vaddr) + size <= MEMORY_SIZE
    ensures Physical(pt, vaddr) / PAGE_SIZE == (Physical(pt, vaddr) + size - 1) / PAGE_SIZE ==
            pt[vaddr / PAGE_SIZE].physicalPage
  {
    AlignedInPage(vaddr, size);
    InFrame(pt[vaddr / PAGE_SIZE].physicalPage, vaddr % PAGE_SIZE, size);
  }

  lemma AlignedInPage(vaddr: nat, size: int)
    requires size in {1, 2, 4} && Aligned(vaddr, size)
    ensures vaddr % PAGE_SIZE + size <= PAGE_SIZE
  {
    var q, o := vaddr / PAGE_SIZE, vaddr % PAGE_SIZE;
    assert vaddr == 4 * (32 * q) + o;
    assert size == 4 ==> o % 4 == 0;
    assert size == 2 ==> o % 2 == 0;
  }

  lemma InFrame(f: int, o: int, size: int)
    requires 0 <= f < NUM_PHYS_PAGES && 0 <= o && size > 0 && o + size <= PAGE_SIZE
    ensures 0 <= f * PAGE_SIZE + o && f * PAGE_SIZE + o + size <= MEMORY_SIZE
    ensures (f * PAGE_SIZE + o) / PAGE_SIZE == f == (f * PAGE_SIZE + o + size - 1) / PAGE_SIZE
  {
  }

  // ---- the bytes ----------------------------------------------------------------------------------------

  /** What size 1, 2 and 4 reads make of the bytes at `p`: a char is signed, a short is not, a word is. */
  function Load(m: Memory, p: nat, size: int): int32
    requires size in {1, 2, 4} && p + size <= MEMORY_SIZE
  {
    if size == 1 then (if m[p] < 128 then m[p] as int else m[p] as int - 256)
    else if size == 2 then m[p] as int + 256 * (m[p + 1] as int)
    else DecodeInt(m[p..p + 4])
  }

  /** The bytes a write stores: the low ones of the value. */
  function Bytes(size: int, value: int32): (b: seq<byte>)
    requires size in {1, 2, 4}
    ensures |b| == size
  {
    if size == 1 then [(value % 256) as byte]
    else if size == 2 then [(value % 256) as byte, (value / 256 % 256) as byte]
    else EncodeInt(value)
  }

  function Store(m: Memory, p: nat, size: int, value: int32): (n: Memory)
    requires size in {1, 2, 4} && p + size <= MEMORY_SIZE
  {
    m[..p] + Bytes(size, value) + m[p + size..]
  }

  /** What is read back is what was written, cut to the size: signed for a byte, unsigned for a short. */
  lemma LoadStore(m: Memory, p: nat, size: int, value: int32)
    requires size in {1, 2, 4} && p + size <= MEMORY_SIZE
    ensures var v := Load(Store(m, p, size, value), p, size);
            && (v - value) % (if size == 1 then 256 else if size == 2 then 65536 else 0x1_0000_0000) == 0
            && (size == 1 ==> -128 <= v < 128) && (size == 2 ==> 0 <= v < 65536) && (size == 4 ==> v == value)
  {
    var n := Store(m, p, size, value);
    assert n[p..p + size] == Bytes(size, value);
    assert n[p] == Bytes(size, value)[0];
    if size == 4 {
      IntRoundTrip(value);
    } else if size == 2 {
      assert n[p + 1] == Bytes(size, value)[1];
      ShortBytes(value);
    }
  }

  lemma ShortBytes(v: int)
    ensures (v % 256 + 256 * (v / 256 % 256) - v) % 65536 == 0
  {
    assert v == 256 * (v / 256) + v % 256;
    var q := v / 256;
    assert q == 256 * (q / 256) + q % 256;
    assert v % 256 + 256 * (q % 256) - v == -65536 * (q / 256);
  }

  // ---- what one process sees ------------------------------------------------------------------------------

  /** The same mapping, whatever the use and dirty bits. */
  ghost predicate SameMap(pt: seq<Pte>, qt: seq<Pte>) {
    |pt| == |qt| && forall i :: 0 <= i < |pt| ==> qt[i] == pt[i].(use := qt[i].use, dirty := qt[i].dirty)
  }

  lemma SameTranslation(pt: seq<Pte>, qt: seq<Pte>, vaddr: nat, write: bool)
    requires SameMap(pt, qt)
    ensures KernelStatus(qt, vaddr, write) == KernelStatus(pt, vaddr, write)
    ensures Physical(qt, vaddr) == Physical(pt, vaddr)
  {
  }

  /** The frames behind the valid pages, in page order. */
  function Frames(pt: seq<Pte>): (f: seq<int>) {
    if pt == [] then []
    else Frames(pt[..|pt| - 1]) + if pt[|pt| - 1].valid then [pt[|pt| - 1].physicalPage] else []
  }

  predicate Readable(pt: seq<Pte>, vaddr: int) {
    vaddr >= 0 && KernelStatus(pt, vaddr, false) == OK
  }

  predicate Writable(pt: seq<Pte>, vaddr: int) {
    vaddr >= 0 && KernelStatus(pt, vaddr, true) == OK
  }

  predicate WritableRange(pt: seq<Pte>, vaddr: int, length: int) {
    forall v :: vaddr <= v < vaddr + length ==> Writable(pt, v)
  }

  predicate ReadableRange(pt: seq<Pte>, vaddr: int, length: int) {
    forall v :: vaddr <= v < vaddr + length ==> Readable(pt, v)
  }

  /** No two valid pages share a frame, and every frame exists. */
  ghost predicate Injective(pt: seq<Pte>) {
    && (forall i :: 0 <= i < |pt| && pt[i].valid ==> 0 <= pt[i].physicalPage < NUM_PHYS_PAGES)
    && (forall i, j :: 0 <= i < j < |pt| && pt[i].valid && pt[j].valid ==> pt[i].physicalPage != pt[j].physicalPage)
  }

  /** The byte a process sees at `vaddr`. */
  function Seen(m: Memory, pt: seq<Pte>, vaddr: int): byte
    requires Readable(pt, vaddr)
  {
    PhysicalRange(pt, vaddr);
    m[Physical(pt, vaddr)]
  }

  lemma PhysicalRange(pt: seq<Pte>, vaddr: int)
    requires Readable(pt, vaddr)
    ensures 0 <= Physical(pt, vaddr) < MEMORY_SIZE
  {
    WithinFrame(pt, vaddr, 1, false);
  }

  lemma PhysicalDistinct(f: int, o: int, g: int, p: int)
    requires 0 <= o < PAGE_SIZE && 0 <= p < PAGE_SIZE && (f != g || o != p)
    ensures f * PAGE_SIZE + o != g * PAGE_SIZE + p
  {
  }

  /** Different addresses of one process are different places in memory. */
  lemma SeenApart(pt: seq<Pte>, u: int, v: int)
    requires Injective(pt) && Readable(pt, u) && Readable(pt, v) && u != v
    ensures Physical(pt, u) != Physical(pt, v)
  {
    assert u / PAGE_SIZE == v / PAGE_SIZE ==> u % PAGE_SIZE != v % PAGE_SIZE;
    PhysicalDistinct(pt[u / PAGE_SIZE].physicalPage, u % PAGE_SIZE, pt[v / PAGE_SIZE].physicalPage, v % PAGE_SIZE);
  }

  /** Memory after the bytes of `buf` were stored one by one from `vaddr` on. */
  function Copied(m: Memory, pt: seq<Pte>, vaddr: int, buf: seq<byte>): (n: Memory)
    requires WritableRange(pt, vaddr, |buf|)
  {
    if buf == [] then m
    else
      var k := |buf| - 1;
      assert Writable(pt, vaddr + k);
      WithinFrame(pt, vaddr + k, 1, true);
      Copied(m, pt, vaddr, buf[..k])[Physical(pt, vaddr + k) := buf[k]]
  }

  /** Copying in changes what the process sees at those addresses, to just those bytes, and nowhere
      else, over however many pages in whatever frames. */
  lemma {:induction false} CopiedSeen(m: Memory, pt: seq<Pte>, vaddr: int, buf: seq<byte>, v: int)
    requires Injective(pt) && Readable(pt, v) && WritableRange(pt, vaddr, |buf|)
    ensures Seen(Copied(m, pt, vaddr, buf), pt, v) == if vaddr <= v < vaddr + |buf| then buf[v - vaddr]
            else Seen(m, pt, v)
  {
    PhysicalRange(pt, v);
    if buf != [] {
      var k := |buf| - 1;
      assert Writable(pt, vaddr + k) && Readable(pt, vaddr + k);
      WithinFrame(pt, vaddr + k, 1, true);
      CopiedSeen(m, pt, vaddr, buf[..k], v);
      if v != vaddr + k {
        SeenApart(pt, v, vaddr + k);
      }
    }
  }

  /** Nor does another process see any of it. */
  lemma {:induction false} CopiedIsolated(m: Memory, pt: seq<Pte>, qt: seq<Pte>, vaddr: int, buf: seq<byte>, v: int)
    requires WritableRange(pt, vaddr, |buf|)
    requires Apart(pt, qt) && Readable(qt, v)
    ensures Seen(Copied(m, pt, vaddr, buf), qt, v) == Seen(m, qt, v)
  {
    PhysicalRange(qt, v);
    if buf != [] {
      var k := |buf| - 1;
      assert Writable(pt, vaddr + k);
      WithinFrame(pt, vaddr + k, 1, true);
      CopiedIsolated(m, pt, qt, vaddr, buf[..k], v);
      PhysicalDistinct(pt[(vaddr + k) / PAGE_SIZE].physicalPage, (vaddr + k) % PAGE_SIZE,
        qt[v / PAGE_SIZE].physicalPage, v % PAGE_SIZE);
    }
  }

  /** Two page tables with no frame in common. */
  ghost predicate Apart(pt: seq<Pte>, qt: seq<Pte>) {
    forall i, j :: 0 <= i < |pt| && pt[i].valid && 0 <= j < |qt| && qt[j].valid ==>
      pt[i].physicalPage != qt[j].physicalPage
  }

  /** A write of any size in one address space leaves every read in another as it was. */
  lemma WriteIsolated(m: Memory, pt: seq<Pte>, qt: seq<Pte>, vaddr: nat, size: int, value: int32, u: nat, usize: int)
    requires Apart(pt, qt) && size in {1, 2, 4} && usize in {1, 2, 4}
    requires Aligned(vaddr, size) && KernelStatus(pt, vaddr, true) == OK
    requires Aligned(u, usize) && KernelStatus(qt, u, false) == OK
    ensures 0 <= Physical(pt, vaddr) && Physical(pt, vaddr) + size <= MEMORY_SIZE
    ensures 0 <= Physical(qt, u) && Physical(qt, u) + usize <= MEMORY_SIZE
    ensures Load(Store(m, Physical(pt, vaddr), size, value), Physical(qt, u), usize) == Load(m, Physical(qt, u), usize)
  {
    WithinFrame(pt, vaddr, size, true);
    WithinFrame(qt, u, usize, false);
    var p, q := Physical(pt, vaddr), Physical(qt, u);
    assert pt[vaddr / PAGE_SIZE].physicalPage != qt[u / PAGE_SIZE].physicalPage;
    OtherFrame(p, size, q, usize);
    LoadElsewhere(m, p, size, value, q, usize);
  }

  lemma OtherFrame(p: nat, size: nat, q: nat, usize: nat)
    requires size > 0 && usize > 0 && p / PAGE_SIZE != q / PAGE_SIZE
    requires p / PAGE_SIZE == (p + size - 1) / PAGE_SIZE && q / PAGE_SIZE == (q + usize - 1) / PAGE_SIZE
    ensures p + size <= q || q + usize <= p
  {
  }

  lemma LoadElsewhere(m: Memory, p: nat, size: int, value: int32, q: nat, usize: int)
    requires size in {1, 2, 4} && usize in {1, 2, 4} && p + size <= MEMORY_SIZE && q + usize <= MEMORY_SIZE
    requires p + size <= q || q + usize <= p
    ensures Load(Store(m, p, size, value), q, usize) == Load(m, q, usize)
  {
    var n := Store(m, p, size, value);
    assert forall k :: q <= k < q + usize ==> n[k] == m[k];
    assert n[q..q + usize] == m[q..q + usize];
  }

  // ---- loading -------------------------------------------------------------------------------------------

  /** Nothing has changed outside the frames of `pt`. */
  ghost predicate Elsewhere(pt: seq<Pte>, m: Memory, n: Memory) {
    forall p :: 0 <= p < MEMORY_SIZE && !InFrames(pt, p / PAGE_SIZE) ==> n[p] == m[p]
  }

  predicate InFrames(pt: seq<Pte>, f: int) {
    exists i :: 0 <= i < |pt| && pt[i].valid && pt[i].physicalPage == f
  }

  /** Then nobody apart from it has seen anything change. */
  lemma ElsewhereIsolated(pt: seq<Pte>, qt: seq<Pte>, m: Memory, n: Memory, v: int)
    requires Elsewhere(pt, m, n) && Apart(pt, qt) && Readable(qt, v)
    ensures Seen(n, qt, v) == Seen(m, qt, v)
  {
    WithinFrame(qt, v, 1, false);
  }

  /** Memory with `bytes` at the start of page `i`. */
  function Patched(m: Memory, pt: seq<Pte>, i: nat, bytes: seq<byte>): (n: Memory)
    requires i < |pt| && 0 <= pt[i].physicalPage < NUM_PHYS_PAGES && |bytes| <= PAGE_SIZE
  {
    var p := pt[i].physicalPage * PAGE_SIZE;
    m[..p] + bytes + m[p + |bytes|..]
  }

  lemma PatchedSeen(m: Memory, pt: seq<Pte>, i: nat, bytes: seq<byte>, v: int)
    requires Injective(pt) && Readable(pt, v) && i < |pt| && pt[i].valid && |bytes| <= PAGE_SIZE
    ensures Seen(Patched(m, pt, i, bytes), pt, v) == if v / PAGE_SIZE == i && v % PAGE_SIZE < |bytes| then
            bytes[v % PAGE_SIZE] else Seen(m, pt, v)
  {
    PhysicalRange(pt, v);
    var p := pt[i].physicalPage * PAGE_SIZE;
    if v / PAGE_SIZE != i {
      FrameGap(pt[v / PAGE_SIZE].physicalPage, v % PAGE_SIZE, pt[i].physicalPage);
    }
  }

  lemma FrameGap(f: int, o: int, g: int)
    requires 0 <= o < PAGE_SIZE && f != g
    ensures f * PAGE_SIZE + o < g * PAGE_SIZE || g * PAGE_SIZE + PAGE_SIZE <= f * PAGE_SIZE + o
  {
  }

  lemma PatchedElsewhere(m: Memory, pt: seq<Pte>, i: nat, bytes: seq<byte>)
    requires i < |pt| && pt[i].valid && 0 <= pt[i].physicalPage < NUM_PHYS_PAGES && |bytes| <= PAGE_SIZE
    ensures Elsewhere(pt, m, Patched(m, pt, i, bytes))
  {
    forall p | 0 <= p < MEMORY_SIZE && !InFrames(pt, p / PAGE_SIZE) ensures Patched(m, pt, i, bytes)[p] == m[p] {
      FrameGap(p / PAGE_SIZE, p % PAGE_SIZE, pt[i].physicalPage);
    }
  }

  lemma StoreInFrame(m: Memory, pt: seq<Pte>, page: nat, p: nat, size: int, value: int32)
    requires size in {1, 2, 4} && page < |pt| && pt[page].valid && p + size <= MEMORY_SIZE
    requires p / PAGE_SIZE == (p + size - 1) / PAGE_SIZE == pt[page].physicalPage
    ensures Elsewhere(pt, m, Store(m, p, size, value))
  {
    var n := Store(m, p, size, value);
    forall q | 0 <= q < MEMORY_SIZE && !InFrames(pt, q / PAGE_SIZE) ensures n[q] == m[q] {
      assert q / PAGE_SIZE != p / PAGE_SIZE;
      assert q < p || q >= p + size;
    }
  }

  lemma ElsewhereTrans(pt: seq<Pte>, a: Memory, b: Memory, c: Memory)
    requires Elsewhere(pt, a, b) && Elsewhere(pt, b, c)
    ensures Elsewhere(pt, a, c)
  {
  }
}
