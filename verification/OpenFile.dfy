// OpenNaFile: byte-granular access to a file whose disk moves whole sectors.
module OpenFile {
  import opened Collections
  import opened Codec
  import opened SectorDisk
  import opened HeaderValue
  import opened FileHeaders

  /** How many bytes a request of `numBytes` at `position` moves in a file of `length` bytes: all of them, unless the
      file ends before; and none only if none were asked for or the request begins behind the end. */
  function Granted(length: nat, numBytes: int, position: int): (n: nat)
    ensures numBytes > 0 && position < length ==>
              0 < n <= numBytes && position + n <= length && (n == numBytes || position + n == length)
    ensures numBytes <= 0 || position >= length ==> n == 0
  {
    if numBytes <= 0 || position >= length then 0 else Min(numBytes, length - position)
  }

  /** What a request that is not turned down at once is computed with: a position in the file, and a sum that
      is an int. */
  predicate Sums(length: int, numBytes: int, position: int) {
    numBytes > 0 && position < length ==> 0 <= position && position + numBytes <= INT_MAX
  }

  class OpenNaFile {
    const disk: SynchDisk
    const hdr: FileHeader
    var seekPosition: int32

    ghost predicate Valid()
      reads hdr, hdr.dataSectors
    {
      && disk.Valid() && hdr.Valid() && disk.Repr() !! hdr.Repr() && this !in disk.Repr() + hdr.Repr()
      && Good(hdr.Value())
      && Distinct(Data(hdr.Value()))
    }

    ghost function Repr(): set<object> {
      {this} + disk.Repr() + hdr.Repr()
    }

    ghost function Bytes(): seq<byte>
      requires Valid()
      reads hdr, hdr.dataSectors, disk.sectors
    {
      FileBytes(disk.Contents(), hdr.Value())
    }

    constructor (disk: SynchDisk, sector: int)
      requires disk.Valid() && 0 <= sector < DISK_NUM_SECTORS
      requires Good(DecodeHeader(disk.Contents()[sector]))
      requires Distinct(Data(DecodeHeader(disk.Contents()[sector])))
      ensures Valid() && this.disk == disk && seekPosition == 0
      ensures hdr.Value() == DecodeHeader(disk.Contents()[sector])
      ensures fresh(Repr() - disk.Repr())
    {
      this.disk := disk;
      var h := new FileHeader();
      hdr := h;
      seekPosition := 0;
      new;
      hdr.FetchFrom(disk, sector);
    }

    method Seek(position: int32)
      modifies this`seekPosition
      ensures seekPosition == position
    {
      seekPosition := position;
    }

    function Length(): int32
      reads hdr
    {
      hdr.numBytes
    }

    /** The loop of ReadAt: all the full and partial sectors `first` to `last`, into `buf`. */
    method ReadSectors(first: nat, last: nat, buf: array<byte>)
      requires Valid() && first <= last < hdr.numSectors
      requires buf !in Repr() && buf.Length == (last + 1 - first) * SECTOR_SIZE
      modifies buf
      ensures buf[..] == Raw(disk.Contents(), hdr.Value(), first, last + 1)
    {
      ghost var d, h := disk.Contents(), hdr.Value();
      var i := first;
      while i <= last
        invariant first <= i <= last + 1
        invariant buf[..(i - first) * SECTOR_SIZE] == Raw(d, h, first, i)
      {
        var o := (i - first) * SECTOR_SIZE;
        var s := hdr.ByteToSector(i * SECTOR_SIZE);
        ghost var before := buf[..o];
        disk.ReadSector(s, buf, o);
        assert buf[..o] == before;
        assert buf[..o + SECTOR_SIZE] == buf[..o] + buf[o..o + SECTOR_SIZE];
        i := i + 1;
      }
      assert buf[..] == buf[..buf.Length];
    }

    /** The transfer of ReadAt, once the request is known to lie inside the file. */
    method ReadSlice(into: array<byte>, off: nat, n: nat, position: nat)
      requires Valid() && n > 0 && position + n <= hdr.numBytes
      requires off + n <= into.Length && into !in Repr()
      modifies into
      ensures into[off..off + n] == Bytes()[position..position + n]
      ensures forall k :: 0 <= k < into.Length && !(off <= k < off + n) ==> into[k] == old(into[k])
    {
      var firstSector := position / SECTOR_SIZE;
      var lastSector := (position + n - 1) / SECTOR_SIZE;
      var numSectors := 1 + lastSector - firstSector;
      var buf := new byte[numSectors * SECTOR_SIZE];
      hide Distinct, Good;
      ReadSectors(firstSector, lastSector, buf);
      var start := position - firstSector * SECTOR_SIZE;
      ghost var want := Bytes()[position..position + n];
      assert buf[start..start + n] == want by {
        RawSlice(disk.Contents(), hdr.Value(), firstSector, lastSector + 1, position, n);
      }
      hide FileBytes, Raw;
      ghost var all := Bytes();
      Bcopy(buf, start, into, off, n);
      assert Bytes() == all;
      assert into[off..off + n] == want;
    }

    method ReadAt(into: array<byte>, off: nat, numBytes: int32, position: int32) returns (n: int32)
      requires Valid() && Sums(hdr.numBytes, numBytes, position)
      requires off + Granted(hdr.numBytes, numBytes, position) <= into.Length && into !in Repr()
      modifies into
      ensures numBytes > 0 && position < hdr.numBytes ==>
                0 < n <= numBytes && position + n <= hdr.numBytes && (n == numBytes || position + n == hdr.numBytes)
      ensures numBytes <= 0 || position >= hdr.numBytes ==> n == 0
      ensures n == Granted(hdr.numBytes, numBytes, position)
      ensures n > 0 ==> into[off..off + n] == Bytes()[position..position + n]
      ensures forall k :: 0 <= k < into.Length && !(off <= k < off + n) ==> into[k] == old(into[k])
    {
      var fileLength := hdr.FileLength();
      if numBytes <= 0 || position >= fileLength {
        return 0;
      }
      n := numBytes;
      if position + n > fileLength {
        n := fileLength - position;
      }
      ReadSlice(into, off, n, position);
    }

    /** One of the reads of WriteAt: what the file holds in sector `sec`, at its place in `buf`,
        whose first byte stands for file offset `base`. */
    method FillSector(buf: array<byte>, ghost base: nat, sec: nat, off: nat)
      requires Valid() && sec < hdr.numSectors && base + off == sec * SECTOR_SIZE
      requires buf !in Repr() && off + SECTOR_SIZE <= buf.Length
      modifies buf
      ensures Agree(buf[..], base, Bytes(), sec * SECTOR_SIZE, Min(sec * SECTOR_SIZE + SECTOR_SIZE, hdr.numBytes))
      ensures forall k :: 0 <= k < buf.Length && !(off <= k < off + SECTOR_SIZE) ==> buf[k] == old(buf[k])
    {
      hide FileBytes, Raw, Distinct;
      ghost var all := Bytes();
      var got := ReadAt(buf, off, SECTOR_SIZE, sec * SECTOR_SIZE);
      assert Bytes() == all;
      Shift(buf[..], base, off, all, sec * SECTOR_SIZE, got);
    }

    /** The two reads of WriteAt: bring in the sectors that will only be partly overwritten, so that
        everything in the buffer outside the request is what the file already holds. */
    method FillPartial(buf: array<byte>, firstSector: nat, lastSector: nat, n: nat, position: nat)
      requires Valid() && n > 0 && position + n <= hdr.numBytes
      requires buf !in Repr()
      requires firstSector == position / SECTOR_SIZE && lastSector == (position + n - 1) / SECTOR_SIZE
      requires buf.Length == (1 + lastSector - firstSector) * SECTOR_SIZE
      modifies buf
      ensures Agree(buf[..], firstSector * SECTOR_SIZE, Bytes(), firstSector * SECTOR_SIZE, position)
      ensures Agree(buf[..], firstSector * SECTOR_SIZE, Bytes(), position + n,
              Min((lastSector + 1) * SECTOR_SIZE, hdr.numBytes))
    {
      hide FileBytes, Raw, Distinct;
      var firstAligned := position == firstSector * SECTOR_SIZE;
      var lastAligned := position + n == (lastSector + 1) * SECTOR_SIZE;
      if !firstAligned {
        FillSector(buf, firstSector * SECTOR_SIZE, firstSector, 0);
      }
      if !lastAligned && (firstSector != lastSector || firstAligned) {
        FillSector(buf, firstSector * SECTOR_SIZE, lastSector, (lastSector - firstSector) * SECTOR_SIZE);
      }
    }

    /** The loop of WriteAt: the sectors of the request, written back whole. */
    method WriteSectors(first: nat, last: nat, buf: array<byte>)
      requires Valid() && first <= last < hdr.numSectors
      requires buf !in Repr() && buf.Length == (last + 1 - first) * SECTOR_SIZE
      modifies disk.sectors
      ensures Valid() && hdr.Value() == old(hdr.Value())
      ensures disk.Contents() == Wrote(old(disk.Contents()), hdr.Value(), first, last + 1, buf[..])
    {
      ghost var d, h, bytes := disk.Contents(), hdr.Value(), buf[..];
      var i := first;
      while i <= last
        invariant first <= i <= last + 1
        invariant hdr.Value() == h && buf[..] == bytes
        invariant disk.Contents() == Wrote(d, h, first, i, bytes)
      {
        var s := hdr.ByteToSector(i * SECTOR_SIZE);
        var off := (i - first) * SECTOR_SIZE;
        disk.WriteSector(s, buf, off);
        assert buf[..] == bytes && buf[off..off + SECTOR_SIZE] == bytes[off..off + SECTOR_SIZE];
        i := i + 1;
      }
    }

    /** Everything WriteAt does before it writes: a fresh buffer for sectors `firstSector` to
        `lastSector` that already looks like the file after the request. */
    method BuildBuffer(from: array<byte>, firstSector: nat, lastSector: nat, n: nat, position: nat)
      returns (buf: array<byte>)
      requires Valid() && n > 0 && position + n <= hdr.numBytes
      requires n <= from.Length && from !in Repr()
      requires firstSector == position / SECTOR_SIZE && lastSector == (position + n - 1) / SECTOR_SIZE
      ensures fresh(buf) && buf.Length == (1 + lastSector - firstSector) * SECTOR_SIZE
      ensures Agree(buf[..], firstSector * SECTOR_SIZE, Splice(Bytes(), position, from[..n]),
                    firstSector * SECTOR_SIZE, Min((lastSector + 1) * SECTOR_SIZE, hdr.numBytes))
    {
      hide FileBytes, Raw, Distinct, Agree, Splice;
      buf := new byte[(1 + lastSector - firstSector) * SECTOR_SIZE];
      FillPartial(buf, firstSector, lastSector, n, position);
      ghost var all, filled, src, start := Bytes(), buf[..], from[..n], position - firstSector * SECTOR_SIZE;
      Bcopy(from, 0, buf, position - firstSector * SECTOR_SIZE, n);
      assert buf[..][start..start + n] == src;
      WantInBuffer(filled, buf[..], firstSector * SECTOR_SIZE, all, position, src,
        Min((lastSector + 1) * SECTOR_SIZE, hdr.numBytes));
    }

    /** The transfer of WriteAt, once the request is known to lie inside the file. */
    method WriteSlice(from: array<byte>, n: nat, position: nat)
      requires Valid() && n > 0 && position + n <= hdr.numBytes
      requires n <= from.Length && from !in Repr()
      modifies disk.sectors
      ensures Valid() && hdr.Value() == old(hdr.Value())
      ensures Bytes() == Splice(old(Bytes()), position, from[..n])
      ensures OnlyData(old(disk.Contents()), disk.Contents(), hdr.Value())
    {
      hide FileBytes, Raw, Distinct, Agree, Splice, Wrote, OnlyData;
      var firstSector := position / SECTOR_SIZE;
      var lastSector := (position + n - 1) / SECTOR_SIZE;
      var buf := BuildBuffer(from, firstSector, lastSector, n, position);
      ghost var d, h, bytes, src := disk.Contents(), hdr.Value(), buf[..], from[..n];
      WriteSectors(firstSector, lastSector, buf);
      WroteSplice(d, h, bytes, firstSector, lastSector + 1, position, src);
    }

    method WriteAt(from: array<byte>, numBytes: int32, position: int32) returns (n: int32)
      requires Valid() && Sums(hdr.numBytes, numBytes, position)
      requires Granted(hdr.numBytes, numBytes, position) <= from.Length && from !in Repr()
      modifies disk.sectors
      ensures Valid() && hdr.Value() == old(hdr.Value())
      ensures numBytes > 0 && position < hdr.numBytes ==>
                0 < n <= numBytes && position + n <= hdr.numBytes && (n == numBytes || position + n == hdr.numBytes)
      ensures numBytes <= 0 || position >= hdr.numBytes ==> n == 0
      ensures n == Granted(hdr.numBytes, numBytes, position)
      ensures n == 0 ==> disk.Contents() == old(disk.Contents())
      ensures n > 0 ==> Bytes() == Splice(old(Bytes()), position, from[..n])
      ensures OnlyData(old(disk.Contents()), disk.Contents(), hdr.Value())
    {
      var fileLength := hdr.FileLength();
      if numBytes <= 0 || position >= fileLength {
        return 0;
      }
      n := numBytes;
      if position + n > fileLength {
        n := fileLength - position;
      }
      WriteSlice(from, n, position);
    }

    method Read(into: array<byte>, numBytes: int32) returns (n: int32)
      requires Valid() && Sums(hdr.numBytes, numBytes, seekPosition)
      requires Granted(hdr.numBytes, numBytes, seekPosition) <= into.Length && into !in Repr()
      modifies into, this`seekPosition
      ensures numBytes > 0 && old(seekPosition) < hdr.numBytes ==>
                0 < n <= numBytes && old(seekPosition) + n <= hdr.numBytes
                && (n == numBytes || old(seekPosition) + n == hdr.numBytes)
      ensures numBytes <= 0 || old(seekPosition) >= hdr.numBytes ==> n == 0
      ensures n == Granted(hdr.numBytes, numBytes, old(seekPosition))
      ensures n > 0 ==> into[..n] == Bytes()[old(seekPosition)..old(seekPosition) + n]
      ensures seekPosition == old(seekPosition) + n
    {
      n := ReadAt(into, 0, numBytes, seekPosition);
      assert into[0..0 + n] == into[..n];
      seekPosition := seekPosition + n;
    }

    method Write(from: array<byte>, numBytes: int32) returns (n: int32)
      requires Valid() && Sums(hdr.numBytes, numBytes, seekPosition)
      requires Granted(hdr.numBytes, numBytes, seekPosition) <= from.Length && from !in Repr()
      modifies disk.sectors, this`seekPosition
      ensures Valid() && hdr.Value() == old(hdr.Value())
      ensures numBytes > 0 && old(seekPosition) < hdr.numBytes ==>
                0 < n <= numBytes && old(seekPosition) + n <= hdr.numBytes
                && (n == numBytes || old(seekPosition) + n == hdr.numBytes)
      ensures numBytes <= 0 || old(seekPosition) >= hdr.numBytes ==> n == 0
      ensures n == Granted(hdr.numBytes, numBytes, old(seekPosition))
      ensures n > 0 ==> Bytes() == Splice(old(Bytes()), old(seekPosition), from[..n])
      ensures OnlyData(old(disk.Contents()), disk.Contents(), hdr.Value())
      ensures seekPosition == old(seekPosition) + n
    {
      n := WriteAt(from, numBytes, seekPosition);
      seekPosition := seekPosition + n;
    }
  }

  lemma Shift(buf: seq<byte>, base: nat, off: nat, all: seq<byte>, j: nat, n: nat)
    requires off + n <= |buf| && j + n <= |all| && base + off == j
    requires buf[off..off + n] == all[j..j + n]
    ensures Agree(buf, base, all, j, j + n)
  {
    forall p | j <= p < j + n ensures buf[p - base] == all[p] {
      assert buf[off..off + n][p - j] == all[j..j + n][p - j];
    }
  }

  /** After the caller's bytes are copied into the filled buffer it holds the spliced file. */
  lemma WantInBuffer(filled: seq<byte>, buf: seq<byte>, base: nat, all: seq<byte>, pos: nat, src: seq<byte>, end: nat)
    requires base <= pos && pos + |src| <= end <= |all| && end - base <= |buf| == |filled|
    requires Agree(filled, base, all, base, pos) && Agree(filled, base, all, pos + |src|, end)
    requires buf[pos - base..pos - base + |src|] == src
    requires forall k :: 0 <= k < |buf| && !(pos - base <= k < pos - base + |src|) ==> buf[k] == filled[k]
    ensures Agree(buf, base, Splice(all, pos, src), base, end)
  {
    forall p | base <= p < end ensures buf[p - base] == Splice(all, pos, src)[p] {
      SpliceAt(all, pos, src, p);
      if pos <= p < pos + |src| {
        assert buf[pos - base..pos - base + |src|][p - pos] == src[p - pos];
      }
    }
  }

  /** WriteAt as a whole, on values: writing back a buffer that looks like the spliced file makes the
      file exactly that, and touches nothing but the file's own data sectors. */
  lemma WroteSplice(d: Image, h: Header, buf: seq<byte>, a: nat, b: nat, position: nat, src: seq<byte>)
    requires Good(h) && Distinct(Data(h)) && |src| > 0 && position + |src| <= h.numBytes
    requires a == position / SECTOR_SIZE && b == (position + |src| - 1) / SECTOR_SIZE + 1
    requires |buf| == (b - a) * SECTOR_SIZE
    requires Agree(buf, a * SECTOR_SIZE, Splice(FileBytes(d, h), position, src), a * SECTOR_SIZE,
             Min(b * SECTOR_SIZE, h.numBytes))
    ensures FileBytes(Wrote(d, h, a, b, buf), h) == Splice(FileBytes(d, h), position, src)
    ensures OnlyData(d, Wrote(d, h, a, b, buf), h)
  {
    hide FileBytes, Raw, Wrote, Overwritten, OnlyData, Splice, Agree, Distinct;
    var all := FileBytes(d, h);
    var e := Wrote(d, h, a, b, buf);
    assert Overwritten(d, e, h, a, b, buf) by {
      WroteOverwrites(d, h, a, b, buf);
      assert buf[..(b - a) * SECTOR_SIZE] == buf;
    }
    forall p | 0 <= p < h.numBytes && !(a * SECTOR_SIZE <= p < Min(b * SECTOR_SIZE, h.numBytes))
      ensures Splice(all, position, src)[p] == all[p]
    {
      SpliceAt(all, position, src, p);
    }
    OverwrittenBytes(d, e, h, a, b, buf, Splice(all, position, src));
    OverwrittenOnlyData(d, e, h, a, b, buf);
  }
}
