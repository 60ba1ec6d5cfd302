module FileHeaders {
  import opened Collections
  import opened Codec
  import opened SectorDisk
  import opened HeaderValue
  import opened Bitmaps

  class FileHeader {
    var numBytes: int32
    var numSectors: int32
    const dataSectors: array<int32>

    ghost predicate Valid() {
      dataSectors.Length == NUM_DIRECT
    }

    ghost function Value(): (h: Header)
      requires Valid()
      reads this, dataSectors
      ensures WellShaped(h)
    {
      Header(numBytes, numSectors, dataSectors[..])
    }

    ghost function Repr(): set<object> {
      {this, dataSectors}
    }

    /** There is no initialisation: the fields start with whatever was in memory. */
    constructor ()
      ensures Valid() && fresh(Repr())
    {
      dataSectors := new int32[NUM_DIRECT];
    }

    /** FileHeader::FetchFrom: overlay this object with the bytes of a sector. */
    method FetchFrom(disk: SynchDisk, sector: int)
      requires Repr() !! disk.Repr()
      requires Valid() && disk.Valid() && 0 <= sector < DISK_NUM_SECTORS
      modifies Repr()
      ensures Value() == DecodeHeader(disk.Contents()[sector])
    {
      var buf := new byte[SECTOR_SIZE];
      disk.ReadSector(sector, buf, 0);
      var h := DecodeHeader(buf[..]);
      assert buf[..] == buf[0..0 + SECTOR_SIZE];
      numBytes, numSectors := h.numBytes, h.numSectors;
      forall i | 0 <= i < NUM_DIRECT {
        dataSectors[i] := h.dataSectors[i];
      }
      assert dataSectors[..] == h.dataSectors;
    }

    /** FileHeader::WriteBack: the object's bytes become the sector. */
    method WriteBack(disk: SynchDisk, sector: int)
      requires Repr() !! disk.Repr()
      requires Valid() && disk.Valid() && 0 <= sector < DISK_NUM_SECTORS
      modifies disk.sectors
      ensures disk.Contents() == old(disk.Contents())[sector := EncodeHeader(Value())]
      ensures DecodeHeader(disk.Contents()[sector]) == Value()
    {
      var h := Header(numBytes, numSectors, dataSectors[..]);
      var bytes := EncodeHeader(h);
      var buf := new byte[SECTOR_SIZE](i requires 0 <= i < SECTOR_SIZE => bytes[i]);
      assert buf[0..0 + SECTOR_SIZE] == bytes;
      disk.WriteSector(sector, buf, 0);
      HeaderRoundTrip(h);
    }

    function ByteToSector(offset: int): int32
      requires Valid() && 0 <= offset < NUM_DIRECT * SECTOR_SIZE
      reads this, dataSectors
    {
      dataSectors[offset / SECTOR_SIZE]
    }

    function FileLength(): int32
      reads this
    {
      numBytes
    }

    /** FileHeader::Allocate: the header of a new file of `fileSize` bytes, its sectors taken from `freeMap`.
        If there are sectors for it, the header has to have room for their numbers. */
    method Allocate(freeMap: Bitmap, fileSize: int32) returns (ok: bool)
      requires Valid() && freeMap.Valid() && freeMap.numBits == DISK_NUM_SECTORS
      requires 0 <= fileSize
      requires CountClear(freeMap.Bits()) >= DivRoundUp(fileSize, SECTOR_SIZE) ==> fileSize <= MAX_FILE_SIZE
      requires Repr() !! {freeMap, freeMap.store}
      modifies Repr(), freeMap.store
      ensures ok <==> CountClear(old(freeMap.Bits())) >= DivRoundUp(fileSize, SECTOR_SIZE)
      ensures ok <==> CountClear(old(freeMap.Bits())) * 128 >= fileSize
      ensures !ok ==> freeMap.Bits() == old(freeMap.Bits())
      ensures ok ==> Good(Value()) && Value().numBytes == fileSize
      ensures ok ==> Taken(old(freeMap.Bits()), freeMap.Bits(), Data(Value()))
    {
      hide BitsOf, Bit, Taken, Distinct;
      Enough(CountClear(freeMap.Bits()), fileSize);
      numBytes := fileSize;
      numSectors := DivRoundUp(fileSize, SECTOR_SIZE);
      var clear := freeMap.NumClear();
      if clear < numSectors {
        return false;
      }
      ghost var before := freeMap.Bits();
      TakenNone(before);
      var i := 0;
      while i < numSectors
        invariant 0 <= i <= numSectors
        invariant numBytes == fileSize && numSectors == DivRoundUp(fileSize, SECTOR_SIZE)
        invariant CountClear(freeMap.Bits()) >= numSectors - i
        invariant Taken(before, freeMap.Bits(), dataSectors[..i])
      {
        ghost var bits, taken := freeMap.Bits(), dataSectors[..i];
        var s := freeMap.FindAndSet();
        CountClearZero(bits);
        assert s >= 0;
        CountClearSet(bits, s);
        dataSectors[i] := s;
        TakenStep(before, bits, taken, s);
        assert dataSectors[..i + 1] == taken + [s];
        i := i + 1;
      }
      TakenInRange(before, freeMap.Bits(), dataSectors[..numSectors]);
      return true;
    }

    /** FileHeader::Deallocate: give the data sectors back. Its ASSERT is the second precondition. */
    method Deallocate(freeMap: Bitmap)
      requires Valid() && freeMap.Valid() && freeMap.numBits == DISK_NUM_SECTORS
      requires Good(Value()) && Distinct(Data(Value())) && forall s :: s in Data(Value()) ==> freeMap.Bits()[s]
      modifies freeMap.store
      ensures Value() == old(Value())
      ensures Taken(freeMap.Bits(), old(freeMap.Bits()), Data(Value()))
    {
      hide BitsOf, Bit;
      var i := 0;
      ghost var h, before := Value(), freeMap.Bits();
      while i < numSectors
        invariant 0 <= i <= numSectors
        invariant Value() == h
        invariant Taken(freeMap.Bits(), before, h.dataSectors[..i])
      {
        ghost var bits := freeMap.Bits();
        assert dataSectors[i] == h.dataSectors[i] == Data(h)[i];
        assert forall j :: 0 <= j < i ==> h.dataSectors[j] == Data(h)[j];
        var marked := freeMap.Test(dataSectors[i]);
        assert marked;
        freeMap.Clear(dataSectors[i]);
        GivenBackStep(bits, before, h.dataSectors[..i], h.dataSectors[i]);
        assert h.dataSectors[..i + 1] == h.dataSectors[..i] + [h.dataSectors[i]];
        i := i + 1;
      }
      assert h.dataSectors[..h.numSectors] == Data(h);
    }
  }

  /** `after` marks exactly what `before` marks plus the distinct, previously clear sectors of `s`. */
  ghost predicate Taken(before: seq<bool>, after: seq<bool>, s: seq<int>) {
    && |before| == |after|
    && Distinct(s)
    && (forall i :: 0 <= i < |s| ==> 0 <= s[i] < |before| && !before[s[i]])
    && (forall k :: 0 <= k < |before| ==> (after[k] <==> before[k] || k in s))
  }

  lemma TakenNone(bits: seq<bool>)
    ensures Taken(bits, bits, [])
  {
  }

  lemma TakenInRange(before: seq<bool>, after: seq<bool>, s: seq<int>)
    requires Taken(before, after, s)
    ensures forall i :: 0 <= i < |s| ==> 0 <= s[i] < |before|
  {
  }

  lemma TakenStep(before: seq<bool>, bits: seq<bool>, s: seq<int>, x: int)
    requires Taken(before, bits, s) && 0 <= x < |bits| && !bits[x]
    ensures Taken(before, bits[x := true], s + [x])
  {
  }

  lemma GivenBackStep(bits: seq<bool>, before: seq<bool>, s: seq<int>, x: int)
    requires Taken(bits, before, s) && 0 <= x < |bits| && bits[x] && x !in s
    ensures Taken(bits[x := false], before, s + [x])
  {
  }

  /** Every sector taken is one clear sector fewer. */
  lemma {:induction false} TakenCount(before: seq<bool>, after: seq<bool>, s: seq<int>)
    requires Taken(before, after, s)
    ensures CountClear(after) == CountClear(before) - |s|
    decreases |s|
  {
    if s == [] {
      assert before == after;
    } else {
      var n := |s| - 1;
      var mid := after[s[n] := false];
      assert after[s[n]];
      assert s == s[..n] + [s[n]];
      TakenCount(before, mid, s[..n]);
      CountClearSet(mid, s[n]);
      assert mid[s[n] := true] == after;
    }
  }
}
