// FileSystem: format, Create, Open, Remove over a raw disk.
module FileSystems {
  import opened Collections
  import opened Codec
  import opened SectorDisk
  import opened HeaderValue
  import opened Bitmaps
  import opened FileHeaders
  import opened OpenFile
  import opened PersistentBitmaps
  import opened Directories
  import opened Volumes
  import opened MountedDisk
  import opened DiskChanges

  class FileSystem {
    const disk: SynchDisk
    const freeMapFile: OpenNaFile
    const directoryFile: OpenNaFile

    /** Format the disk, or take it as it is: then it has to be one that a file system was left on. */
    constructor (disk: SynchDisk, format: bool)
      requires disk.Valid() && (!format ==> Fsck(disk.Contents()))
      modifies disk.sectors
      ensures Valid() && this.disk == disk && fresh(Repr() - disk.Repr())
      ensures format ==> Listed() == map[] && CountClear(Bits()) == DISK_NUM_SECTORS - FORMAT_SECTORS
      ensures !format ==> disk.Contents() == old(disk.Contents())
    {
      hide FileBytes, BitsOn, DirOn, Sound, View, Good, Distinct, Listing, DecodeHeader, CountClear;
      var map_, dir;
      if format {
        map_, dir := Format(disk);
      } else {
        map_, dir := OpenBoth(disk);
      }
      this.disk, freeMapFile, directoryFile := disk, map_, dir;
    }

    /** The two system files of a disk that a file system was left on. */
    static method OpenBoth(disk: SynchDisk) returns (map_: OpenNaFile, dir: OpenNaFile)
      requires disk.Valid() && Fsck(disk.Contents())
      ensures Opened(disk, map_, dir) && fresh(map_.Repr() + dir.Repr() - disk.Repr())
      ensures HeaderAt(disk.Contents(), FREE_MAP_SECTOR) == map_.hdr.Value() && map_.hdr.numBytes == FREE_MAP_FILE_SIZE
      ensures HeaderAt(disk.Contents(), DIRECTORY_SECTOR) == dir.hdr.Value() && dir.hdr.numBytes == DIRECTORY_FILE_SIZE
    {
      hide Sound, View, Good, Distinct, DecodeHeader;
      SystemFiles(disk.Contents());
      map_ := new OpenNaFile(disk, FREE_MAP_SECTOR);
      dir := new OpenNaFile(disk, DIRECTORY_SECTOR);
    }

    /** The first part of format: what the free map and the two headers will be. */
    static method PlanFormat(freeMap: Bitmap, mapHdr: FileHeader, dirHdr: FileHeader)
      returns (ghost mid: seq<bool>)
      requires freeMap.Valid() && mapHdr.Valid() && dirHdr.Valid()
               && freeMap.Bits() == seq(DISK_NUM_SECTORS, i => false)
      requires mapHdr.Repr() !! dirHdr.Repr() && mapHdr.Repr() + dirHdr.Repr() !! {freeMap, freeMap.store}
      modifies freeMap.store, mapHdr.Repr(), dirHdr.Repr()
      ensures Good(mapHdr.Value()) && mapHdr.numBytes == FREE_MAP_FILE_SIZE
      ensures Good(dirHdr.Value()) && dirHdr.numBytes == DIRECTORY_FILE_SIZE
      ensures Taken(NoBits(), mid, [FREE_MAP_SECTOR] + Data(mapHdr.Value()))
      ensures Taken(mid, freeMap.Bits(), [DIRECTORY_SECTOR] + Data(dirHdr.Value()))
      ensures CountClear(freeMap.Bits()) == DISK_NUM_SECTORS - FORMAT_SECTORS
    {
      NoBitsSet(freeMap.Bits());
      hide BitsOf, Distinct, Taken, CountClear, NoBits;
      ghost var b0 := NoBits();
      CountClearAll(b0);
      CountClearSet(b0, FREE_MAP_SECTOR);
      freeMap.Mark(FREE_MAP_SECTOR);
      ghost var b1 := freeMap.Bits();
      CountClearSet(b1, DIRECTORY_SECTOR);
      freeMap.Mark(DIRECTORY_SECTOR);
      ghost var b2 := freeMap.Bits();
      var mapOk := mapHdr.Allocate(freeMap, FREE_MAP_FILE_SIZE);
      assert mapOk;
      ghost var b3, x := freeMap.Bits(), Data(mapHdr.Value());
      TakenCount(b2, b3, x);
      var dirOk := dirHdr.Allocate(freeMap, DIRECTORY_FILE_SIZE);
      assert dirOk;
      mid := FormatTaken(b0, b3, freeMap.Bits(), x, Data(dirHdr.Value()));
      FormatCount(mid, freeMap.Bits(), mapHdr.Value(), dirHdr.Value());
    }

    /** Write the headers of the two system files, then open both. */
    static method OpenNew(disk: SynchDisk, mapHdr: FileHeader, dirHdr: FileHeader)
      returns (map_: OpenNaFile, dir: OpenNaFile)
      requires disk.Valid() && mapHdr.Valid() && dirHdr.Valid() && mapHdr.Repr() + dirHdr.Repr() !! disk.Repr()
      requires Good(mapHdr.Value()) && Distinct(Data(mapHdr.Value()))
      requires Good(dirHdr.Value()) && Distinct(Data(dirHdr.Value()))
      modifies disk.sectors
      ensures HeaderAt(disk.Contents(), FREE_MAP_SECTOR) == mapHdr.Value()
      ensures HeaderAt(disk.Contents(), DIRECTORY_SECTOR) == dirHdr.Value()
      ensures Opened(disk, map_, dir)
      ensures map_.hdr.Value() == mapHdr.Value() && dir.hdr.Value() == dirHdr.Value()
      ensures fresh(map_.Repr() + dir.Repr() - disk.Repr())
    {
      hide Good, Distinct, DecodeHeader, EncodeHeader;
      mapHdr.WriteBack(disk, FREE_MAP_SECTOR);
      dirHdr.WriteBack(disk, DIRECTORY_SECTOR);
      map_ := new OpenNaFile(disk, FREE_MAP_SECTOR);
      dir := new OpenNaFile(disk, DIRECTORY_SECTOR);
    }

    /** The last two writes of format, and what the disk then is. */
    static method FlushFormatted(disk: SynchDisk, map_: OpenNaFile, dir: OpenNaFile, freeMap: PersistentBitmap,
      directory: Directory, ghost mid: seq<bool>)
      requires disk.Valid() && Opened(disk, map_, dir)
      requires freeMap.Valid() && freeMap.bitmap.numBits == DISK_NUM_SECTORS && directory.Valid()
      requires map_.Repr() + dir.Repr() !! {freeMap.bitmap.store, directory.table}
      requires HeaderAt(disk.Contents(), FREE_MAP_SECTOR) == map_.hdr.Value() && map_.hdr.numBytes == FREE_MAP_FILE_SIZE
      requires HeaderAt(disk.Contents(), DIRECTORY_SECTOR) == dir.hdr.Value() && dir.hdr.numBytes == DIRECTORY_FILE_SIZE
      requires Taken(NoBits(), mid, [FREE_MAP_SECTOR] + Data(map_.hdr.Value()))
      requires Taken(mid, freeMap.Bits(), [DIRECTORY_SECTOR] + Data(dir.hdr.Value()))
      requires forall k :: 0 <= k < NUM_DIR_ENTRIES ==> !directory.table[k].inUse
      modifies disk.sectors
      ensures Opened(disk, map_, dir) && map_.hdr.Value() == old(map_.hdr.Value())
              && dir.hdr.Value() == old(dir.hdr.Value())
      ensures HeaderAt(disk.Contents(), FREE_MAP_SECTOR) == map_.hdr.Value()
      ensures HeaderAt(disk.Contents(), DIRECTORY_SECTOR) == dir.hdr.Value()
      ensures Fsck(disk.Contents()) && Files(disk.Contents()) == map[] && BitsOn(disk.Contents()) == freeMap.Bits()
    {
      hide Good, Distinct, DecodeHeader, FileBytes, EncodeTable, EncodeWords, OnlyData, Taken, Fsck, BitsOn, DirOn,
        Files, BitsOf;
      ghost var m, t := map_.hdr.Value(), dir.hdr.Value();
      ghost var d1 := disk.Contents();
      freeMap.WriteBack(map_);
      ghost var d2 := disk.Contents();
      directory.WriteBack(dir);
      assert Packs(freeMap.bitmap.store[..], freeMap.Bits());
      FormattedDisk(d1, d2, disk.Contents(), m, t, NoBits(), mid, freeMap.Bits(), freeMap.bitmap.store[..],
        directory.table[..]);
    }

    /** The second part of format: put on the disk what was planned. */
    static method InstallFormat(disk: SynchDisk, freeMap: PersistentBitmap, directory: Directory, mapHdr: FileHeader,
      dirHdr: FileHeader,
                                ghost mid: seq<bool>)
      returns (map_: OpenNaFile, dir: OpenNaFile)
      requires disk.Valid() && mapHdr.Valid() && dirHdr.Valid() && mapHdr.Repr() + dirHdr.Repr() !! disk.Repr()
      requires freeMap.Valid() && freeMap.bitmap.numBits == DISK_NUM_SECTORS && directory.Valid()
      requires disk.Repr() !! {freeMap.bitmap.store, directory.table}
      requires Good(mapHdr.Value()) && mapHdr.numBytes == FREE_MAP_FILE_SIZE
      requires Good(dirHdr.Value()) && dirHdr.numBytes == DIRECTORY_FILE_SIZE
      requires Taken(NoBits(), mid, [FREE_MAP_SECTOR] + Data(mapHdr.Value()))
      requires Taken(mid, freeMap.Bits(), [DIRECTORY_SECTOR] + Data(dirHdr.Value()))
      requires forall k :: 0 <= k < NUM_DIR_ENTRIES ==> !directory.table[k].inUse
      modifies disk.sectors
      ensures Opened(disk, map_, dir) && fresh(map_.Repr() + dir.Repr() - disk.Repr())
      ensures HeaderAt(disk.Contents(), FREE_MAP_SECTOR) == map_.hdr.Value() && map_.hdr.numBytes == FREE_MAP_FILE_SIZE
      ensures HeaderAt(disk.Contents(), DIRECTORY_SECTOR) == dir.hdr.Value() && dir.hdr.numBytes == DIRECTORY_FILE_SIZE
      ensures Fsck(disk.Contents()) && Files(disk.Contents()) == map[]
      ensures BitsOn(disk.Contents()) == freeMap.Bits()
    {
      hide Good, Distinct, DecodeHeader, FileBytes, Taken, Fsck, BitsOn, DirOn, Files, BitsOf, NoBits;
      FormatApart(mid, freeMap.Bits(), mapHdr.Value(), dirHdr.Value(), NoBits());
      map_, dir := OpenNew(disk, mapHdr, dirHdr);
      FlushFormatted(disk, map_, dir, freeMap, directory, mid);
    }

    static method Format(disk: SynchDisk) returns (map_: OpenNaFile, dir: OpenNaFile)
      requires disk.Valid()
      modifies disk.sectors
      ensures Opened(disk, map_, dir) && fresh(map_.Repr() + dir.Repr() - disk.Repr())
      ensures HeaderAt(disk.Contents(), FREE_MAP_SECTOR) == map_.hdr.Value() && map_.hdr.numBytes == FREE_MAP_FILE_SIZE
      ensures HeaderAt(disk.Contents(), DIRECTORY_SECTOR) == dir.hdr.Value() && dir.hdr.numBytes == DIRECTORY_FILE_SIZE
      ensures Fsck(disk.Contents()) && Files(disk.Contents()) == map[]
      ensures CountClear(BitsOn(disk.Contents())) == DISK_NUM_SECTORS - FORMAT_SECTORS
    {
      hide Good, Distinct, DecodeHeader, FileBytes, Taken, Fsck, BitsOn, DirOn, Files, BitsOf, CountClear, NoBits;
      var freeMap := new PersistentBitmap(DISK_NUM_SECTORS);
      var directory := new Directory();
      var mapHdr := new FileHeader();
      var dirHdr := new FileHeader();
      ghost var mid := PlanFormat(freeMap.bitmap, mapHdr, dirHdr);
      map_, dir := InstallFormat(disk, freeMap, directory, mapHdr, dirHdr, mid);
    }

    /** Two files open on one disk and sharing nothing else. */
    static ghost predicate Opened(disk: SynchDisk, map_: OpenNaFile, dir: OpenNaFile)
      reads map_.hdr, map_.hdr.dataSectors, dir.hdr, dir.hdr.dataSectors
    {
      && map_.Valid() && dir.Valid() && map_.disk == disk && dir.disk == disk
      && map_.Repr() * dir.Repr() == disk.Repr()
    }

    ghost function Repr(): set<object> {
      {this} + freeMapFile.Repr() + directoryFile.Repr()
    }

    /** The two files kept open: same disk, apart from each other otherwise. */
    ghost predicate Wired() {
      && freeMapFile.disk == disk && directoryFile.disk == disk
      && freeMapFile.Repr() * directoryFile.Repr() == disk.Repr()
      && this !in freeMapFile.Repr() + directoryFile.Repr()
    }

    /** The two open files have these headers in memory. */
    ghost predicate Handles(m: Header, t: Header)
      reads freeMapFile.hdr, freeMapFile.hdr.dataSectors, directoryFile.hdr, directoryFile.hdr.dataSectors
    {
      && Wired() && freeMapFile.Valid() && directoryFile.Valid()
      && freeMapFile.hdr.Value() == m && m.numBytes == FREE_MAP_FILE_SIZE
      && directoryFile.hdr.Value() == t && t.numBytes == DIRECTORY_FILE_SIZE
    }

    /** The disk can be mounted, and the two open files are those the disk describes. */
    ghost predicate Mounted()
      reads Repr()
    {
      && Wired() && disk.Valid() && Mountable(disk.Contents())
      && Handles(HeaderAt(disk.Contents(), FREE_MAP_SECTOR), HeaderAt(disk.Contents(), DIRECTORY_SECTOR))
    }

    ghost predicate Valid()
      reads Repr()
    {
      Mounted() && Fsck(disk.Contents())
    }

    ghost function Bits(): (s: seq<bool>)
      requires Valid()
      reads Repr()
      ensures |s| == DISK_NUM_SECTORS
    {
      BitsOn(disk.Contents())
    }

    ghost function Dir(): (t: seq<Entry>)
      requires Valid()
      reads Repr()
      ensures |t| == NUM_DIR_ENTRIES
    {
      DirOn(disk.Contents())
    }

    ghost function Listed(): map<seq<byte>, seq<byte>>
      requires Valid()
      reads Repr()
    {
      Files(disk.Contents())
    }

    /** The free map, fetched from its file. */
    method FetchMap() returns (freeMap: PersistentBitmap)
      requires Valid()
      ensures fresh(freeMap) && fresh(freeMap.bitmap) && fresh(freeMap.bitmap.store)
      ensures freeMap.Valid() && freeMap.bitmap.numBits == DISK_NUM_SECTORS && freeMap.Bits() == Bits()
    {
      hide FileBytes, DecodeWords, EncodeWords, Fsck, Bit;
      freeMap := new PersistentBitmap(DISK_NUM_SECTORS);
      freeMap.FetchFrom(freeMapFile);
    }

    /** The directory, fetched from its file. */
    method FetchDirectory() returns (directory: Directory)
      requires Valid()
      ensures fresh(directory) && fresh(directory.table)
      ensures directory.Valid() && directory.table[..] == Dir()
    {
      hide FileBytes, DecodeTable, EncodeTable, Fsck;
      directory := new Directory();
      directory.FetchFrom(directoryFile);
    }

    /** How Create, Open and Remove begin: fetch the directory and look the name up. */
    method FindEntry(name: seq<byte>) returns (directory: Directory, sector: int)
      requires Valid()
      ensures fresh(directory) && fresh(directory.table) && directory.Valid() && directory.table[..] == Dir()
      ensures sector == -1 <==> Absent(Dir(), Key(name))
      ensures sector != -1 ==>
                0 <= sector < DISK_NUM_SECTORS
                && exists k :: 0 <= k < NUM_DIR_ENTRIES && Holds(Dir(), k, Key(name)) && Dir()[k].sector == sector
    {
      hide FileBytes, Key, BitsOn, DirOn, Fsck, Absent;
      EntrySectors(disk.Contents());
      directory := FetchDirectory();
      sector := directory.Find(name);
    }

    /** The middle of Create: a sector for the header of the new file, then its directory entry. */
    static method TakeEntry(name: seq<byte>, freeMap: Bitmap, directory: Directory) returns (ok: bool, sector: int32)
      requires freeMap.Valid() && freeMap.numBits == DISK_NUM_SECTORS && directory.Valid()
      requires Absent(directory.table[..], Key(name))
      modifies freeMap.store, directory.table
      ensures ok <==>
                CountClear(old(freeMap.Bits())) > 0
                && exists k :: 0 <= k < NUM_DIR_ENTRIES && !old(directory.table[k]).inUse
      ensures ok ==> 0 <= sector < DISK_NUM_SECTORS && !old(freeMap.Bits())[sector]
      ensures ok ==> freeMap.Bits() == old(freeMap.Bits())[sector := true]
      ensures ok ==> CountClear(freeMap.Bits()) == CountClear(old(freeMap.Bits())) - 1
      ensures ok ==> exists k :: 0 <= k < NUM_DIR_ENTRIES && Added(old(directory.table[..]), directory.table[..], k,
              Key(name), sector)
    {
      hide Key, Absent, BitsOf, Added;
      ok, sector := false, 0;
      ghost var b, t := freeMap.Bits(), directory.table[..];
      CountClearZero(b);
      var s := freeMap.FindAndSet();
      if s != -1 {
        CountClearSet(b, s);
        assert directory.table[..] == t;
        sector := s;
        ok := directory.Add(name, sector);
      }
    }

    /** The in-memory part of Create once the name is known to be new: take a header sector, a
        directory entry and data sectors, in that order, giving up at the first that is not to be had. */
    static method PrepareNew(name: seq<byte>, size: int32, hdr: FileHeader, directory: Directory, freeMap: Bitmap)
      returns (ok: bool, sector: int32)
      requires freeMap.Valid() && freeMap.numBits == DISK_NUM_SECTORS && directory.Valid() && hdr.Valid()
      requires hdr.Repr() !! {freeMap, freeMap.store, directory, directory.table}
      requires 0 <= size && Absent(directory.table[..], Key(name))
      requires Creatable(freeMap.Bits(), directory.table[..], Key(name), size) ==> size <= MAX_FILE_SIZE
      modifies freeMap.store, directory.table, hdr.Repr()
      ensures ok <==> Creatable(old(freeMap.Bits()), old(directory.table[..]), Key(name), size)
      ensures ok ==> Good(hdr.Value()) && hdr.Value().numBytes == size
      ensures ok ==> exists k :: 0 <= k < NUM_DIR_ENTRIES && Added(old(directory.table[..]), directory.table[..], k,
              Key(name), sector)
      ensures ok ==> Taken(old(freeMap.Bits()), freeMap.Bits(), [sector] + Data(hdr.Value()))
    {
      hide Key, Absent, Taken, BitsOf, Good, Distinct, Added;
      ghost var b, t := freeMap.Bits(), directory.table[..];
      ok, sector := TakeEntry(name, freeMap, directory);
      if ok {
        ghost var u := directory.table[..];
        ok := hdr.Allocate(freeMap, size);
        assert directory.table[..] == u;
        if ok {
          TakenMore(b, freeMap.Bits(), sector, Data(hdr.Value()));
        }
      }
    }

    method FlushDirectory(directory: Directory, ghost m: Header, ghost h: Header)
      requires Handles(m, h) && Good(h) && directory.Valid() && directory.table !in Repr()
      modifies disk.sectors
      ensures OnlyData(old(disk.Contents()), disk.Contents(), h)
      ensures FileBytes(disk.Contents(), h) == EncodeTable(directory.table[..])
      ensures Handles(m, h)
    {
      hide FileBytes, EncodeTable, OnlyData, Distinct, Good;
      directory.WriteBack(directoryFile);
    }

    method FlushMap(freeMap: PersistentBitmap, ghost m: Header, ghost h: Header)
      requires Handles(m, h) && Good(m) && freeMap.Valid() && freeMap.bitmap.numBits == DISK_NUM_SECTORS
               && freeMap.bitmap.store !in Repr()
      modifies disk.sectors
      ensures OnlyData(old(disk.Contents()), disk.Contents(), m)
      ensures FileBytes(disk.Contents(), m) == EncodeWords(freeMap.bitmap.store[..])
      ensures Handles(m, h)
    {
      hide FileBytes, EncodeWords, OnlyData, Distinct, Good, BitsOf;
      freeMap.WriteBack(freeMapFile);
    }

    /** The writes of Create. */
    method FlushNew(sector: int32, hdr: FileHeader, directory: Directory, freeMap: PersistentBitmap,
                    ghost own: seq<Owner>, ghost k: nat, ghost m: Header, ghost t: Header)
      requires Handles(m, t) && Mountable(disk.Contents()) && Consistent(View(disk.Contents()), own)
      requires hdr.Valid() && directory.Valid() && freeMap.Valid() && freeMap.bitmap.numBits == DISK_NUM_SECTORS
      requires Repr() !! hdr.Repr() + {directory.table, freeMap.bitmap.store}
      requires Planned(disk.Contents(), k, directory.table[..], hdr.Value(), freeMap.Bits())
      requires m == HeaderAt(disk.Contents(), FREE_MAP_SECTOR) && t == HeaderAt(disk.Contents(), DIRECTORY_SECTOR)
      requires k < NUM_DIR_ENTRIES && directory.table[k].sector == sector && 0 <= sector < DISK_NUM_SECTORS
      modifies disk.sectors
      ensures Handles(m, t)
      ensures Rewritten(old(disk.Contents()), disk.Contents(), own, directory.table[..], freeMap.Bits())
      ensures HeaderAt(disk.Contents(), sector) == hdr.Value()
    {
      hide FileBytes, EncodeTable, EncodeWords, Consistent, Planned, OnlyData, Distinct, Good, BitsOf, BitsOn, DirOn,
        View, Rewritten, DecodeHeader;
      ghost var d := disk.Contents();
      hdr.WriteBack(disk, sector);
      ghost var d1 := disk.Contents();
      FlushDirectory(directory, m, t);
      ghost var d2 := disk.Contents();
      FlushMap(freeMap, m, t);
      assert Packs(freeMap.bitmap.store[..], freeMap.Bits());
      CreatedDisk(d, d1, d2, disk.Contents(), own, k, directory.table[..], hdr.Value(), freeMap.Bits(),
        freeMap.bitmap.store[..]);
    }

    /** Everything a new file needs, taken from what is on the disk. */
    ghost predicate Prepared(sector: int32, hdr: FileHeader, directory: Directory, freeMap: PersistentBitmap,
      key: seq<byte>)
      requires Valid()
      reads Repr(), hdr, hdr.dataSectors, directory, directory.table, freeMap.bitmap.store
    {
      && hdr.Valid() && directory.Valid() && freeMap.Valid() && freeMap.bitmap.numBits == DISK_NUM_SECTORS
      && Repr() !! hdr.Repr() + {directory.table, freeMap.bitmap.store}
      && Good(hdr.Value()) && Taken(Bits(), freeMap.Bits(), [sector] + Data(hdr.Value()))
      && exists k :: 0 <= k < NUM_DIR_ENTRIES && Added(Dir(), directory.table[..], k, key, sector)
    }

    /** The last part of Create, when everything the new file needs has been found. */
    method StoreNew(sector: int32, hdr: FileHeader, directory: Directory, freeMap: PersistentBitmap,
      ghost key: seq<byte>)
      requires Valid() && Absent(Dir(), key) && Prepared(sector, hdr, directory, freeMap, key)
      modifies disk.sectors
      ensures Valid() && FileCreated(old(disk.Contents()), disk.Contents(), key, hdr.numBytes)
    {
      hide FileCreated,  FileBytes, Key, Absent, Taken, BitsOf, BitsOn, DirOn, Good, Distinct, Added, Occupied, Files,
        Fsck, View, Rewritten, Planned, DecodeHeader, Consistent, Listing;
      ghost var d := disk.Contents();
      ghost var own := FsckOwner(d);
      ghost var k :| 0 <= k < NUM_DIR_ENTRIES && Added(DirOn(d), directory.table[..], k, key, sector);
      ghost var t, h, bits := directory.table[..], hdr.Value(), freeMap.Bits();
      AddedPlanned(d, k, t, h, bits, key, sector);
      FlushNew(sector, hdr, directory, freeMap, own, k, HeaderAt(d, FREE_MAP_SECTOR), HeaderAt(d, DIRECTORY_SECTOR));
      CreateDone(d, disk.Contents(), own, k, t, h, bits);
    }

    /** Create, once the name is known to be new. */
    method CreateNew(name: seq<byte>, initialSize: int32, directory: Directory) returns (success: bool)
      requires Valid() && 0 <= initialSize
      requires Creatable(Bits(), Dir(), Key(name), initialSize) ==> initialSize <= MAX_FILE_SIZE
      requires Repr() !! {directory, directory.table} && directory.Valid()
      requires directory.table[..] == Dir() && Absent(Dir(), Key(name))
      modifies disk.sectors, directory.table
      ensures Valid()
      ensures success <==> Creatable(old(Bits()), old(Dir()), Key(name), initialSize)
      ensures !success ==> disk.Contents() == old(disk.Contents())
      ensures success ==> FileCreated(old(disk.Contents()), disk.Contents(), Key(name), initialSize)
    {
      hide FileCreated;
      hide FileBytes, Key, Absent, Taken, BitsOf, BitsOn, DirOn, Good, Distinct, Added, Occupied, Files, Fsck, View,
        DecodeHeader, Listing, Creatable;
      ghost var b, t := Bits(), Dir();
      var freeMap := FetchMap();
      var hdr := new FileHeader();
      var sector;
      success, sector := PrepareNew(name, initialSize, hdr, directory, freeMap.bitmap);
      assert Bits() == b && Dir() == t;
      if success {
        StoreNew(sector, hdr, directory, freeMap, Key(name));
      }
    }

    /** If everything the file needs is there, the header has to have room for its sectors' numbers. */
    method Create(name: seq<byte>, initialSize: int32) returns (success: bool)
      requires Valid() && 0 <= initialSize
      requires Creatable(Bits(), Dir(), Key(name), initialSize) ==> initialSize <= MAX_FILE_SIZE
      modifies disk.sectors
      ensures Valid()
      ensures success <==> Creatable(old(Bits()), old(Dir()), Key(name), initialSize)
      ensures !success ==> disk.Contents() == old(disk.Contents())
      ensures success ==> FileCreated(old(disk.Contents()), disk.Contents(), Key(name), initialSize)
    {
      hide FileCreated, FileBytes, Key, Absent, Taken, BitsOf, BitsOn, DirOn, Good, Distinct, Occupied, Files, Fsck,
        View,
        DecodeHeader, Listing, FileSystem.Handles, Creatable, Holds;
      NewNames(Bits(), Dir(), Key(name), initialSize);
      var directory, found := FindEntry(name);
      if found != -1 {
        return false;
      }
      success := CreateNew(name, initialSize, directory);
    }

    /** Open returns a live handle, or null if there is no such file. */
    method Open(name: seq<byte>) returns (openFile: OpenNaFile?)
      requires Valid()
      ensures openFile == null <==> Absent(Dir(), Key(name))
      ensures openFile != null ==> openFile.Valid() && openFile.disk == disk && openFile.seekPosition == 0
      ensures openFile != null ==> fresh(openFile.Repr() - disk.Repr())
      ensures openFile != null ==> Live(disk.Contents(), openFile.hdr.Value(), Key(name))
    {
      hide FileBytes, Key, Live, Absent, View, Sound, Good, Distinct, DecodeHeader, Listing;
      var directory, sector := FindEntry(name);
      openFile := null;
      if sector >= 0 {
        FoundLive(disk.Contents(), sector, Key(name));
        openFile := new OpenNaFile(disk, sector);
      }
    }

    /** Give back in the free map what a file occupies: its data, then its header's sector. The ASSERT
        in Deallocate holds. */
    static method ReleaseSectors(sector: int32, fileHdr: FileHeader, freeMap: Bitmap)
      requires fileHdr.Valid() && Good(fileHdr.Value()) && freeMap.Valid() && freeMap.numBits == DISK_NUM_SECTORS
      requires fileHdr.Repr() !! {freeMap, freeMap.store}
      requires Distinct<int>([sector] + Data(fileHdr.Value()))
      requires forall s :: s in [sector] + Data(fileHdr.Value()) ==> 0 <= s < DISK_NUM_SECTORS && freeMap.Bits()[s]
      modifies freeMap.store
      ensures Taken(freeMap.Bits(), old(freeMap.Bits()), [sector] + Data(fileHdr.Value()))
    {
      hide BitsOf, Good;
      ghost var x, b := Data(fileHdr.Value()), freeMap.Bits();
      RestDistinct(sector, x);
      assert 0 <= sector < DISK_NUM_SECTORS by {
        assert sector in [sector] + Data(fileHdr.Value());
      }
      hide Distinct, Taken;
      fileHdr.Deallocate(freeMap);
      ghost var b1 := freeMap.Bits();
      freeMap.Clear(sector);
      TakenClear(b, b1, sector, x);
    }

    /** The in-memory part of Remove once the file is found. */
    method Release(name: seq<byte>, sector: int32, directory: Directory, ghost own: seq<Owner>, ghost k: nat)
      returns (freeMap: PersistentBitmap)
      requires Valid() && Consistent(View(disk.Contents()), own)
      requires k < NUM_DIR_ENTRIES && Holds(Dir(), k, Key(name)) && Dir()[k].sector == sector
      requires directory.Valid() && Repr() !! {directory, directory.table} && directory.table[..] == Dir()
      modifies directory.table
      ensures fresh(freeMap) && fresh(freeMap.bitmap) && fresh(freeMap.bitmap.store)
      ensures freeMap.Valid() && freeMap.bitmap.numBits == DISK_NUM_SECTORS
      ensures Unplanned(disk.Contents(), k, directory.table[..], freeMap.Bits())
    {
      hide FileBytes, Key, Taken, BitsOf, BitsOn, DirOn, Good, Distinct, Files, Fsck, View, DecodeHeader, Consistent,
        Claim;
      ghost var d := disk.Contents();
      FileMarked(d, own, k);
      HeldOnce(d, k, Key(name));
      var fileHdr := new FileHeader();
      fileHdr.FetchFrom(disk, sector);
      freeMap := FetchMap();
      ReleaseSectors(sector, fileHdr, freeMap.bitmap);
      ghost var bits := freeMap.Bits();
      var ok := directory.Remove(name);
    }

    /** The writes of Remove. */
    method FlushRemoved(directory: Directory, freeMap: PersistentBitmap, ghost own: seq<Owner>, ghost k: nat,
      ghost m: Header, ghost t: Header)
      requires Handles(m, t) && Mountable(disk.Contents()) && Consistent(View(disk.Contents()), own)
      requires directory.Valid() && freeMap.Valid() && freeMap.bitmap.numBits == DISK_NUM_SECTORS
      requires Repr() !! {directory.table, freeMap.bitmap.store}
      requires Unplanned(disk.Contents(), k, directory.table[..], freeMap.Bits())
      requires m == HeaderAt(disk.Contents(), FREE_MAP_SECTOR) && t == HeaderAt(disk.Contents(), DIRECTORY_SECTOR)
      modifies disk.sectors
      ensures Handles(m, t)
      ensures Rewritten(old(disk.Contents()), disk.Contents(), own, directory.table[..], freeMap.Bits())
    {
      hide FileBytes, EncodeTable, EncodeWords, Consistent, Unplanned, OnlyData, Distinct, Good, BitsOf, BitsOn,
        DirOn, View, Rewritten, DecodeHeader;
      ghost var d := disk.Contents();
      FlushMap(freeMap, m, t);
      ghost var d2 := disk.Contents();
      FlushDirectory(directory, m, t);
      assert Packs(freeMap.bitmap.store[..], freeMap.Bits());
      RemovedDisk(d, d2, disk.Contents(), own, k, directory.table[..], freeMap.Bits(), freeMap.bitmap.store[..]);
    }

    /** Remove once the file is found. */
    method RemoveFound(name: seq<byte>, sector: int32, directory: Directory)
      requires Valid()
      requires exists k :: 0 <= k < NUM_DIR_ENTRIES && Holds(Dir(), k, Key(name)) && Dir()[k].sector == sector
      requires directory.Valid() && Repr() !! {directory, directory.table} && directory.table[..] == Dir()
      modifies directory.table, disk.sectors
      ensures Valid() && FileRemoved(old(disk.Contents()), disk.Contents(), Key(name))
    {
      hide FileRemoved;
      hide FileBytes, Key, Taken, BitsOf, BitsOn, DirOn, Good, Distinct, Files, Fsck, View, DecodeHeader, Consistent,
        Claim, Unplanned, Occupied, Rewritten;
      ghost var d := disk.Contents();
      ghost var own := FsckOwner(d);
      ghost var k: nat :| k < NUM_DIR_ENTRIES && Holds(DirOn(d), k, Key(name)) && DirOn(d)[k].sector == sector;
      var freeMap := Release(name, sector, directory, own, k);
      ghost var t, bits := directory.table[..], freeMap.Bits();
      FlushRemoved(directory, freeMap, own, k, HeaderAt(d, FREE_MAP_SECTOR), HeaderAt(d, DIRECTORY_SECTOR));
      RemoveDone(d, disk.Contents(), own, k, t, bits);
    }

    method Remove(name: seq<byte>) returns (ok: bool)
      requires Valid()
      modifies disk.sectors
      ensures Valid()
      ensures ok <==> !Absent(old(Dir()), Key(name))
      ensures !ok ==> disk.Contents() == old(disk.Contents())
      ensures ok ==> FileRemoved(old(disk.Contents()), disk.Contents(), Key(name))
    {
      hide FileRemoved, FileBytes, Key, Taken, BitsOf, BitsOn, DirOn, Good, Distinct, Files, Fsck, View, DecodeHeader,
        Occupied, FileSystem.Handles, Holds, Absent, Mountable;
      var directory, sector := FindEntry(name);
      if sector == -1 {
        return false;
      }
      RemoveFound(name, sector, directory);
      ok := true;
    }
  }
}
