// The machine's registers, its view of memory through a page table, and its traps.
module Machines {
  import opened Codec
  import opened Paging

  const HI_REG := 32
  const LO_REG := 33
  const PC_REG := 34
  const NEXT_PC_REG := 35
  const PREV_PC_REG := 36
  const LOAD_REG := 37
  const LOAD_VALUE_REG := 38
  const BAD_V_ADDR_REG := 39
  const NUM_TOTAL_REGS := 40

  type Regs = r: seq<int32> | |r| == NUM_TOTAL_REGS witness seq(NUM_TOTAL_REGS, i => 0)

  /** At an instruction boundary: R0 is zero, and a pending load is for a general register. */
  predicate Settled(r: Regs) {
    r[0] == 0 && 0 <= r[LOAD_REG] < 32
  }

  /** The registers once the pending load, if any, has landed and the next one is pending. */
  function Delayed(r: Regs, nextReg: int32, nextValue: int32): (n: Regs)
    requires 0 <= r[LOAD_REG] < 32
  {
    r[r[LOAD_REG] := r[LOAD_VALUE_REG]][LOAD_REG := nextReg][LOAD_VALUE_REG := nextValue][0 := 0]
  }

  /** The registers the kernel's handler finds. */
  function Raised(r: Regs, badVAddr: int32): (n: Regs)
    requires 0 <= r[LOAD_REG] < 32
  {
    Delayed(r[BAD_V_ADDR_REG := badVAddr], 0, 0)
  }

  /** A trap leaves every register as it was, the program counters among them, but for the target of the
      pending load, which has its value, the load registers and BadVAddr. */
  lemma RaisedPrecisely(r: Regs, badVAddr: int32)
    requires Settled(r)
    ensures var n := Raised(r, badVAddr);
      && Settled(n) && n[LOAD_REG] == 0 && n[BAD_V_ADDR_REG] == badVAddr
      && (r[LOAD_REG] != 0 ==> n[r[LOAD_REG]] == r[LOAD_VALUE_REG])
      && forall k | 0 <= k < NUM_TOTAL_REGS && k !in {r[LOAD_REG] as int, LOAD_REG, LOAD_VALUE_REG, BAD_V_ADDR_REG} ::
           n[k] == r[k]
  {
  }

  // ---- memory as the machine sees it -----------------------------------------------------------------

  datatype Access = Fault(exception: ExceptionType) | Got(value: int32, pt: seq<Pte>) | Put(m: Memory, pt: seq<Pte>)

  function Reading(m: Memory, pt: seq<Pte>, addr: int32, size: int): (a: Access)
    requires size in {1, 2, 4}
    ensures !a.Put?
  {
    var e := HardwareStatus(pt, addr, size, false);
    if e != NoException then Fault(e)
    else
      HardwareLetsThrough(pt, addr, size, false);
      WithinFrame(pt, Unsigned(addr), size, false);
      Got(Load(m, Physical(pt, Unsigned(addr)), size), Touched(pt, Unsigned(addr), false))
  }

  function Writing(m: Memory, pt: seq<Pte>, addr: int32, size: int, value: int32): (a: Access)
    requires size in {1, 2, 4}
    ensures !a.Got?
  {
    var e := HardwareStatus(pt, addr, size, true);
    if e != NoException then Fault(e)
    else
      HardwareLetsThrough(pt, addr, size, true);
      WithinFrame(pt, Unsigned(addr), size, true);
      Put(Store(m, Physical(pt, Unsigned(addr)), size, value), Touched(pt, Unsigned(addr), true))
  }

  class Machine {
    const registers: array<int32>
    const mainMemory: array<byte>
    var pageTable: array<Pte>
    var handling: ExceptionType      // what the kernel's handler has been called with, if anything

    ghost predicate Valid()
    {
      && registers.Length == NUM_TOTAL_REGS && mainMemory.Length == MEMORY_SIZE
    }

    ghost predicate Ready()
      requires Valid()
      reads this`handling, registers
    {
      Settled(registers[..]) && handling == NoException
    }

    ghost function Memory(): Memory
      requires Valid()
      reads mainMemory
    {
      mainMemory[..]
    }

    constructor (pageTable: array<Pte>)
      ensures Valid() && Ready() && this.pageTable == pageTable && fresh(registers) && fresh(mainMemory)
      ensures forall i :: 0 <= i < NUM_TOTAL_REGS ==> registers[i] == 0
      ensures forall p :: 0 <= p < MEMORY_SIZE ==> mainMemory[p] == 0
    {
      this.pageTable, handling := pageTable, NoException;
      registers := new int32[NUM_TOTAL_REGS](i => 0);
      mainMemory := new byte[MEMORY_SIZE](i => 0);
    }

    method DelayedLoad(nextReg: int32, nextValue: int32)
      requires Valid() && 0 <= registers[LOAD_REG] < 32
      modifies registers
      ensures registers[..] == Delayed(old(registers[..]), nextReg, nextValue)
    {
      registers[registers[LOAD_REG]] := registers[LOAD_VALUE_REG];
      registers[LOAD_REG] := nextReg;
      registers[LOAD_VALUE_REG] := nextValue;
      registers[0] := 0;
    }

    /** RaiseException up to the call of the kernel's handler. */
    method RaiseException(which: ExceptionType, badVAddr: int32)
      requires Valid() && 0 <= registers[LOAD_REG] < 32
      modifies this`handling, registers
      ensures registers[..] == Raised(old(registers[..]), badVAddr) && handling == which
    {
      registers[BAD_V_ADDR_REG] := badVAddr;
      ghost var r := registers[..];
      DelayedLoad(0, 0);
      handling := which;
    }

    method Translate(virtAddr: int32, size: int, writing: bool) returns (exception: ExceptionType, physAddr: int)
      requires Valid() && size in {1, 2, 4}
      modifies pageTable
      ensures exception == HardwareStatus(old(pageTable[..]), virtAddr, size, writing)
      ensures exception == NoException ==>
        && physAddr == Physical(old(pageTable[..]), Unsigned(virtAddr)) && 0 <= physAddr
        && physAddr + size <= MEMORY_SIZE
        && pageTable[..] == Touched(old(pageTable[..]), Unsigned(virtAddr), writing)
      ensures exception != NoException ==> pageTable[..] == old(pageTable[..])
    {
      physAddr := 0;
      if (size == 4 && virtAddr % 4 != 0) || (size == 2 && virtAddr % 2 != 0) {
        return AddressErrorException, physAddr;
      }
      var vpn, offset := Unsigned(virtAddr) / PAGE_SIZE, Unsigned(virtAddr) % PAGE_SIZE;
      if vpn >= pageTable.Length {
        return AddressErrorException, physAddr;
      } else if !pageTable[vpn].valid {
        return PageFaultException, physAddr;
      }
      var entry := pageTable[vpn];
      if entry.readOnly && writing {
        return ReadOnlyException, physAddr;
      }
      var pageFrame := Unsigned(entry.physicalPage);
      if pageFrame >= NUM_PHYS_PAGES {
        return BusErrorException, physAddr;
      }
      HardwareLetsThrough(pageTable[..], virtAddr, size, writing);
      WithinFrame(pageTable[..], Unsigned(virtAddr), size, writing);
      pageTable[vpn] := pageTable[vpn].(use := true);
      if writing {
        pageTable[vpn] := pageTable[vpn].(dirty := true);
      }
      physAddr := pageFrame * PAGE_SIZE + offset;
      return NoException, physAddr;
    }

    method ReadMem(addr: int32, size: int) returns (ok: bool, value: int32)
      requires Valid() && 0 <= registers[LOAD_REG] < 32 && size in {1, 2, 4}
      modifies this`handling, registers, pageTable
      ensures match Reading(Memory(), old(pageTable[..]), addr, size)
        case Fault(e) => !ok && Trapped(old(registers[..]), e, addr) && pageTable[..] == old(pageTable[..])
        case Got(v, pt) =>
          ok && value == v && pageTable[..] == pt && registers[..] == old(registers[..]) && handling == old(handling)
    {
      value := 0;
      ghost var pt := pageTable[..];
      var exception, physicalAddress := Translate(addr, size, false);
      if exception != NoException {
        RaiseException(exception, addr);
        return false, value;
      }
      if size == 1 {
        var b := mainMemory[physicalAddress] as int;
        value := if b < 128 then b else b - 256;
      } else if size == 2 {
        value := mainMemory[physicalAddress] as int + 256 * (mainMemory[physicalAddress + 1] as int);
      } else {
        value := DecodeInt(mainMemory[physicalAddress..physicalAddress + 4]);
      }
      return true, value;
    }

    /** What a trap leaves. */
    ghost predicate Trapped(r: Regs, which: ExceptionType, badVAddr: int32)
      requires Valid() && 0 <= r[LOAD_REG] < 32
      reads this`handling, registers
    {
      registers[..] == Raised(r, badVAddr) && handling == which
    }

    method WriteMem(addr: int32, size: int, value: int32) returns (ok: bool)
      requires Valid() && 0 <= registers[LOAD_REG] < 32 && size in {1, 2, 4}
      modifies this`handling, registers, mainMemory, pageTable
      ensures match Writing(old(Memory()), old(pageTable[..]), addr, size, value)
        case Fault(e) =>
          && !ok && Trapped(old(registers[..]), e, addr) && pageTable[..] == old(pageTable[..])
          && Memory() == old(Memory())
        case Put(m, pt) =>
          ok && Memory() == m && pageTable[..] == pt && registers[..] == old(registers[..]) && handling == old(handling)
    {
      ghost var pt, m := pageTable[..], Memory();
      var exception, physicalAddress := Translate(addr, size, true);
      if exception != NoException {
        RaiseException(exception, addr);
        return false;
      }
      var bytes := Paging.Bytes(size, value);
      forall k | 0 <= k < size {
        mainMemory[physicalAddress + k] := bytes[k];
      }
      assert Memory() == Store(m, physicalAddress, size, value);
      return true;
    }
  }
}
