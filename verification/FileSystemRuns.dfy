// Whole runs of the file system, against a machine that knows nothing of disks.
module FileSystemRuns {
  import opened Collections
  import opened Codec
  import opened SectorDisk
  import opened HeaderValue
  import opened Bitmaps
  import opened FileHeaders
  import opened OpenFile
  import opened Directories
  import opened Volumes
  import opened MountedDisk
  import opened DiskChanges
  import opened FileSystems

  /** What the users of a file system can tell of it: names with their contents, how much room is left, and
      which open handle is on which file. A handle on a removed file is no longer to be used, so it is not
      among them. */
  datatype Store = Store(files: map<seq<byte>, seq<byte>>, free: nat, handles: map<nat, seq<byte>>, next: nat)

  /** Sectors a file of `size` bytes takes: its header and its data. */
  function Cost(size: nat): (c: nat)
    ensures c >= 1
  {
    1 + DivRoundUp(size, SECTOR_SIZE)
  }

  datatype Op =
    | Create(name: seq<byte>, size: int32)
    | Remove(name: seq<byte>)
    | Open(name: seq<byte>)
    | Close(handle: nat)
    | WriteAt(handle: nat, position: int32, data: seq<byte>)
    | ReadAt(handle: nat, position: int32, numBytes: int32)

  /** What comes of it; nothing, if it fails or there is no such handle. */
  datatype Outcome = Refused | Done | Opened(handle: nat) | Written(count: nat) | Got(data: seq<byte>)

  /** A new name, a free entry and enough free sectors. */
  predicate CanCreate(a: Store, key: seq<byte>, size: nat) {
    key !in a.files && |a.files| < NUM_DIR_ENTRIES && a.free >= Cost(size)
  }

  /** What the callers of the file system owe it: a new file that its header can hold; and of a request that
      is not turned down at once, a position in the file and a sum that is an int. */
  predicate Admissible(a: Store, op: Op) {
    match op
    case Create(name, size) => 0 <= size && (CanCreate(a, Key(name), size) ==> size <= MAX_FILE_SIZE)
    case WriteAt(h, position, data) =>
      |data| <= INT_MAX
      && (h in a.handles && a.handles[h] in a.files ==> Sums(|a.files[a.handles[h]]|, |data|, position))
    case ReadAt(h, position, numBytes) =>
      h in a.handles && a.handles[h] in a.files ==> Sums(|a.files[a.handles[h]]|, numBytes, position)
    case _ => true
  }

  /** The bytes of `old` after writing `data` at `position`; the length never changes. */
  function WrittenOver(was: seq<byte>, position: int, data: seq<byte>): (s: seq<byte>)
    ensures |s| == |was|
  {
    var n := Granted(|was|, |data|, position);
    if n == 0 || position < 0 then was else Splice(was, position, data[..n])
  }

  /** The slice of a file that a request at `position` gets. */
  function Sliced(file: seq<byte>, position: int, numBytes: int): (s: seq<byte>)
    ensures position >= 0 ==> |s| == Granted(|file|, numBytes, position)
  {
    var n := Granted(|file|, numBytes, position);
    if n == 0 || position < 0 then [] else file[position..position + n]
  }

  function Kept<T>(files: map<nat, T>, handles: map<nat, seq<byte>>): (r: map<nat, T>)
    ensures r.Keys == files.Keys * handles.Keys && forall h :: h in r ==> r[h] == files[h]
  {
    map h | h in files && h in handles :: files[h]
  }

  /** The handles that are not on the file `key`. */
  function Others(handles: map<nat, seq<byte>>, key: seq<byte>): (r: map<nat, seq<byte>>)
    ensures forall h :: h in r <==> h in handles && handles[h] != key
    ensures forall h :: h in r ==> r[h] == handles[h]
  {
    map h | h in handles && handles[h] != key :: handles[h]
  }

  predicate StoreStep(a: Store, op: Op, o: Outcome, b: Store)
    requires Admissible(a, op)
  {
    match op
    case Create(name, size) =>
      var key := Key(name);
      if CanCreate(a, key, size) then
        o == Done && key in b.files && |b.files[key]| == size
        && b == a.(files := a.files[key := b.files[key]], free := a.free - Cost(size))
      else o == Refused && b == a
    case Remove(name) =>
      var key := Key(name);
      if key in a.files then
        o == Done && b == Store(a.files - {key}, a.free + Cost(|a.files[key]|), Others(a.handles, key), a.next)
      else o == Refused && b == a
    case Open(name) =>
      if Key(name) in a.files then
        o == Opened(a.next) && b == a.(handles := a.handles[a.next := Key(name)], next := a.next + 1)
      else o == Refused && b == a
    case Close(h) =>
      if h in a.handles then o == Done && b == a.(handles := a.handles - {h}) else o == Refused && b == a
    case WriteAt(h, position, data) =>
      if h in a.handles then
        var key := a.handles[h];
        key in a.files && o == Written(Granted(|a.files[key]|, |data|, position))
        && b == a.(files := a.files[key := WrittenOver(a.files[key], position, data)])
      else o == Refused && b == a
    case ReadAt(h, position, numBytes) =>
      if h in a.handles then
        a.handles[h] in a.files && o == Got(Sliced(a.files[a.handles[h]], position, numBytes)) && b == a
      else o == Refused && b == a
  }

  // ---- what a step means to a user -----------------------------------------------------------------

  /** A write puts all of the data in its place, byte by byte, unless the file ends before; then it says how far
      it got. Nothing else changes. */
  lemma WriteMeans(a: Store, h: nat, position: int32, data: seq<byte>, o: Outcome, b: Store)
    requires h in a.handles && a.handles[h] in a.files && Admissible(a, WriteAt(h, position, data))
    requires StoreStep(a, WriteAt(h, position, data), o, b)
    ensures o.Written? && a.handles[h] in b.files && |b.files[a.handles[h]]| == |a.files[a.handles[h]]|
    ensures var f, g := a.files[a.handles[h]], b.files[a.handles[h]];
      && (data != [] && position < |f| ==>
            0 < o.count <= |data| && (o.count == |data| || position + o.count == |f|))
      && (data == [] || position >= |f| ==> o.count == 0)
      && forall p :: 0 <= p < |f| ==> g[p] == if position <= p < position + o.count then data[p - position] else f[p]
    ensures b == a.(files := a.files[a.handles[h] := b.files[a.handles[h]]])
  {
  }

  /** A read gets all that was asked for from its place, unless the file ends before; and changes nothing. */
  lemma ReadMeans(a: Store, h: nat, position: int32, numBytes: int32, o: Outcome, b: Store)
    requires h in a.handles && a.handles[h] in a.files && Admissible(a, ReadAt(h, position, numBytes))
    requires StoreStep(a, ReadAt(h, position, numBytes), o, b)
    ensures o.Got? && b == a
    ensures var f := a.files[a.handles[h]];
      && (numBytes > 0 && position < |f| ==>
            0 < |o.data| <= numBytes && (|o.data| == numBytes || position + |o.data| == |f|))
      && (numBytes <= 0 || position >= |f| ==> o.data == [])
      && forall k :: 0 <= k < |o.data| ==> 0 <= position + k < |f| && o.data[k] == f[position + k]
  {
  }

  /** A file is created exactly if its name is new, fewer than ten files exist, and besides one sector for the header
      the free ones have room for it; and no more of them are taken than that. */
  lemma CreateMeans(a: Store, name: seq<byte>, size: int32, o: Outcome, b: Store)
    requires Admissible(a, Create(name, size)) && StoreStep(a, Create(name, size), o, b)
    ensures o == if Key(name) !in a.files && |a.files| < 10 && (a.free - 1) * 128 >= size then Done else Refused
    ensures o.Refused? ==> b == a
    ensures o.Done? ==>
      var taken := a.free - b.free - 1;
      && Key(name) in b.files && |b.files[Key(name)]| == size && taken * 128 - 128 < size <= taken * 128
      && b.files == a.files[Key(name) := b.files[Key(name)]] && b.handles == a.handles && b.next == a.next
  {
    hide Key;
    Enough(a.free - 1, size);
    RoundsUp(size, SECTOR_SIZE);
    hide DivRoundUp;
  }

  /** Removing a file takes its name away and gives its sectors back, and that of the header; handles on it are
      not to be used any more, and all others are as before. */
  lemma RemoveMeans(a: Store, name: seq<byte>, o: Outcome, b: Store)
    requires StoreStep(a, Remove(name), o, b)
    ensures o == if Key(name) in a.files then Done else Refused
    ensures o.Refused? ==> b == a
    ensures o.Done? ==>
      var given := b.free - a.free - 1;
      && (forall key :: key in b.files <==> key in a.files && key != Key(name))
      && (forall key :: key in b.files ==> b.files[key] == a.files[key])
      && given * 128 - 128 < |a.files[Key(name)]| <= given * 128
      && (forall h :: h in b.handles <==> h in a.handles && a.handles[h] != Key(name))
      && (forall h :: h in b.handles ==> b.handles[h] == a.handles[h]) && b.next == a.next
  {
    hide Key;
    if Key(name) in a.files {
      RoundsUp(|a.files[Key(name)]|, SECTOR_SIZE);
    }
    hide DivRoundUp;
  }

  /** Opening a file that exists gives a handle of its own on it, and closing takes that back. */
  lemma OpenMeans(a: Store, name: seq<byte>, o: Outcome, b: Store, p: Outcome, c: Store)
    requires StoreStep(a, Open(name), o, b) && a.next !in a.handles
    requires o.Opened? ==> StoreStep(b, Close(o.handle), p, c)
    ensures o.Opened? <==> Key(name) in a.files
    ensures !o.Opened? ==> o == Refused && b == a
    ensures o.Opened? ==>
      && o.handle !in a.handles && o.handle in b.handles && b.handles[o.handle] == Key(name)
      && (forall h :: h in b.handles && h != o.handle <==> h in a.handles)
      && (forall h :: h in a.handles ==> b.handles[h] == a.handles[h])
      && b.files == a.files && b.free == a.free && b.next == o.handle + 1
      && p == Done && c.handles == a.handles && c.files == a.files && c.free == a.free && c.next == b.next
  {
    hide Key;
    if o.Opened? {
      assert b.handles - {o.handle} == a.handles;
    }
  }

  ghost function StoreOn(d: Image, handles: map<nat, seq<byte>>, next: nat): Store
    requires Fsck(d)
  {
    Store(Files(d), CountClear(BitsOn(d)), handles, next)
  }

  // ---- the disk refines the store ------------------------------------------------------------------

  /** There is a free entry exactly if fewer than ten names are in use. */
  lemma FreeEntryIff(dir: seq<Entry>)
    requires NamesDistinct(dir)
    ensures (exists k :: 0 <= k < |dir| && !dir[k].inUse) <==> |Names(dir)| < |dir|
  {
    NamesCount(dir);
  }

  lemma {:induction false} NamesCount(dir: seq<Entry>)
    requires NamesDistinct(dir)
    ensures |Names(dir)| <= |dir|
    ensures |Names(dir)| == |dir| <==> forall k :: 0 <= k < |dir| ==> dir[k].inUse
  {
    hide Key;
    if dir != [] {
      var n := |dir| - 1;
      var rest := dir[..n];
      NamesCount(rest);
      var e := dir[n];
      if e.inUse {
        assert Key(e.name) !in Names(rest);
        assert Names(dir) == Names(rest) + {Key(e.name)};
      } else {
        assert Names(dir) == Names(rest);
      }
    }
  }

  lemma FilesCount(d: Image)
    requires Fsck(d)
    ensures |Files(d)| < NUM_DIR_ENTRIES <==> exists k :: 0 <= k < NUM_DIR_ENTRIES && !DirOn(d)[k].inUse
  {
    hide DirOn, BitsOn, NamesDistinct, Names;
    FreeEntryIff(DirOn(d));
    assert Files(d).Keys == Names(DirOn(d));
  }

  /** What a file occupies is a header and as many sectors as its bytes need. */
  lemma OccupiedCount(d: Image, key: seq<byte>)
    requires Fsck(d) && !Absent(DirOn(d), key)
    ensures key in Files(d) && |Occupied(d, key)| == Cost(|Files(d)[key]|)
  {
    hide DirOn, BitsOn, NamesDistinct, Partitioned, FileBytes, Key, Listing;
    var k := Lookup(DirOn(d), key);
    var h := View(d).hdrs[FIRST_FILE + k];
    assert InUse(View(d), FIRST_FILE + k);
    LiveFile(d, h, key);
  }

  lemma CreateRefines(d: Image, e: Image, name: seq<byte>, size: int32, handles: map<nat, seq<byte>>, next: nat)
    requires 0 <= size <= MAX_FILE_SIZE
    requires FileCreated(d, e, Key(name), size) && Creatable(BitsOn(d), DirOn(d), Key(name), size)
    ensures StoreStep(StoreOn(d, handles, next), Create(name, size), Done, StoreOn(e, handles, next))
  {
    hide DirOn, BitsOn, Sound, Files, Taken, Occupied, Key, Absent, CountClear;
    FilesCount(d);
    OccupiedCount(e, Key(name));
    TakenCount(BitsOn(d), BitsOn(e), Occupied(e, Key(name)));
  }

  /** The store can take a new file exactly if the disk can. */
  lemma CreatableIff(d: Image, name: seq<byte>, size: nat, handles: map<nat, seq<byte>>, next: nat)
    requires Fsck(d)
    ensures CanCreate(StoreOn(d, handles, next), Key(name), size) <==> Creatable(BitsOn(d), DirOn(d), Key(name), size)
  {
    hide DirOn, BitsOn, Sound, Files, Key, Absent, CountClear;
    FilesCount(d);
    FsckListed(d, Key(name));
  }

  lemma AdmissibleSize(d: Image, name: seq<byte>, size: int32, handles: map<nat, seq<byte>>, next: nat)
    requires Fsck(d) && Admissible(StoreOn(d, handles, next), Create(name, size))
    ensures 0 <= size && (Creatable(BitsOn(d), DirOn(d), Key(name), size) ==> size <= MAX_FILE_SIZE)
  {
    hide DirOn, BitsOn, Sound, Files, Key, Creatable, CanCreate, CountClear;
    CreatableIff(d, name, size, handles, next);
  }

  lemma CreateFails(d: Image, name: seq<byte>, size: int32, handles: map<nat, seq<byte>>, next: nat)
    requires Fsck(d) && 0 <= size && !Creatable(BitsOn(d), DirOn(d), Key(name), size)
    ensures Admissible(StoreOn(d, handles, next), Create(name, size))
    ensures StoreStep(StoreOn(d, handles, next), Create(name, size), Refused, StoreOn(d, handles, next))
  {
    hide DirOn, BitsOn, Sound, Files, Key, Creatable, CanCreate, CountClear;
    CreatableIff(d, name, size, handles, next);
  }

  lemma RemoveRefines(d: Image, e: Image, name: seq<byte>, handles: map<nat, seq<byte>>, next: nat)
    requires FileRemoved(d, e, Key(name))
    ensures StoreStep(StoreOn(d, handles, next), Remove(name), Done, StoreOn(e, Others(handles, Key(name)), next))
  {
    hide DirOn, BitsOn, Sound, Files, Taken, Occupied, Key, Absent, CountClear;
    OccupiedCount(d, Key(name));
    TakenCount(BitsOn(e), BitsOn(d), Occupied(d, Key(name)));
  }

  lemma RemoveFails(d: Image, name: seq<byte>, handles: map<nat, seq<byte>>, next: nat)
    requires Fsck(d) && Absent(DirOn(d), Key(name))
    ensures StoreStep(StoreOn(d, handles, next), Remove(name), Refused, StoreOn(d, handles, next))
  {
    hide DirOn, BitsOn, Sound, Files, Key, Absent;
    FsckListed(d, Key(name));
  }

  /** Creating a file and removing it again restores the free sectors and the names. */
  lemma CreateRemove(d: Image, e: Image, f: Image, key: seq<byte>, size: nat)
    requires FileCreated(d, e, key, size) && FileRemoved(e, f, key)
    ensures Files(f) == Files(d) && BitsOn(f) == BitsOn(d)
  {
    hide DirOn, BitsOn, Sound, Files, Occupied, Key, Absent;
    var b0, b1, b2, s := BitsOn(d), BitsOn(e), BitsOn(f), Occupied(e, key);
    forall k | 0 <= k < |b0| ensures b2[k] == b0[k] {
      if k in s {
        assert !b0[k] && !b2[k];
      }
    }
  }

  // ---- handles -------------------------------------------------------------------------------------

  /** Exactly that has been written: one file's contents, and nothing else that anybody can tell. */
  ghost predicate FileWritten(d: Image, e: Image, key: seq<byte>, position: int, data: seq<byte>) {
    && Fsck(d) && Fsck(e)
    && key in Files(d) && Files(e) == Files(d)[key := WrittenOver(Files(d)[key], position, data)]
    && BitsOn(e) == BitsOn(d) && HandlesStay(d, e, {})
  }

  /** `file` is an open handle on the file `key` of a file system. */
  ghost predicate On(fs: FileSystem, d: Image, file: OpenNaFile, key: seq<byte>)
    reads file.hdr, file.hdr.dataSectors
  {
    && file.Valid() && file.disk == fs.disk && file.Repr() * fs.Repr() == fs.disk.Repr()
    && Live(d, file.hdr.Value(), key)
  }

  /** WriteAt through a live handle: the store changes in just that file's bytes. */
  method WriteLive(fs: FileSystem, file: OpenNaFile, ghost key: seq<byte>, from: array<byte>, position: int32)
    returns (n: int32)
    requires fs.Valid() && On(fs, fs.disk.Contents(), file, key)
    requires from.Length <= INT_MAX && Sums(file.hdr.numBytes, from.Length, position) && from !in file.Repr()
    modifies fs.disk.sectors
    ensures fs.Valid() && file.Valid() && file.hdr.Value() == old(file.hdr.Value())
    ensures FileWritten(old(fs.disk.Contents()), fs.disk.Contents(), key, position, from[..])
    ensures n == Granted(file.hdr.numBytes, from.Length, position)
  {
    hide Fsck, Files, DirOn, FileBytes, Live, HandlesStay, OnlyData, Splice, Good, Distinct, DecodeHeader, FileWritten;
    ghost var d, h := fs.disk.Contents(), file.hdr.Value();
    LiveFile(d, h, key);
    n := file.WriteAt(from, from.Length, position);
    ghost var e := fs.disk.Contents();
    LiveWrite(d, e, h, key);
    assert FileBytes(e, h) == WrittenOver(FileBytes(d, h), position, from[..]);
    Rewrites(d, e, h, key, position, from[..]);
  }

  method WriteBytes(fs: FileSystem, file: OpenNaFile, ghost key: seq<byte>, data: seq<byte>, position: int32)
    returns (n: int32)
    requires fs.Valid() && On(fs, fs.disk.Contents(), file, key)
    requires |data| <= INT_MAX && Sums(file.hdr.numBytes, |data|, position)
    modifies fs.disk.sectors
    ensures fs.Valid() && FileWritten(old(fs.disk.Contents()), fs.disk.Contents(), key, position, data)
    ensures n == Granted(|Files(old(fs.disk.Contents()))[key]|, |data|, position)
  {
    hide Fsck, Files, DirOn, FileBytes, Live, HandlesStay, Good, Distinct, DecodeHeader, WrittenOver, Sound;
    ghost var d, h := fs.disk.Contents(), file.hdr.Value();
    LiveFile(d, h, key);
    assert |Files(d)[key]| == h.numBytes;
    hide FileWritten;
    var from := new byte[|data|](i requires 0 <= i < |data| => data[i]);
    assert from[..] == data;
    n := WriteLive(fs, file, key, from, position);
  }

  lemma WrittenStay(d: Image, e: Image, key: seq<byte>, position: int, data: seq<byte>)
    requires FileWritten(d, e, key, position, data)
    ensures HandlesStay(d, e, {})
  {
  }

  lemma Rewrites(d: Image, e: Image, h: Header, key: seq<byte>, position: int, data: seq<byte>)
    requires Fsck(d) && Fsck(e) && Good(h) && key in Files(d) && Files(d)[key] == FileBytes(d, h)
    requires FileBytes(e, h) == WrittenOver(FileBytes(d, h), position, data)
    requires Files(e) == Files(d)[key := FileBytes(e, h)] && View(e) == View(d) && HandlesStay(d, e, {})
    ensures FileWritten(d, e, key, position, data)
  {
    hide Fsck, Files, DirOn, FileBytes, HandlesStay, Splice, Good;
  }

  /** ReadAt through a live handle gets the slice that the store has there. */
  method ReadLive(fs: FileSystem, file: OpenNaFile, ghost key: seq<byte>, numBytes: int32, position: int32)
    returns (data: seq<byte>)
    requires fs.Valid() && On(fs, fs.disk.Contents(), file, key)
    requires Sums(file.hdr.numBytes, numBytes, position)
    ensures key in fs.Listed() && data == Sliced(fs.Listed()[key], position, numBytes)
  {
    hide Fsck, Files, DirOn, FileBytes, Live, Good, Distinct, DecodeHeader;
    ghost var d := fs.disk.Contents();
    LiveFile(d, file.hdr.Value(), key);
    var into := new byte[Granted(file.hdr.numBytes, numBytes, position)];
    assert into !in file.Repr();
    var n := file.ReadAt(into, 0, numBytes, position);
    data := into[..n];
    assert data == into[0..n];
  }

  /** All of `files` are open handles, on what `handles` says. */
  ghost predicate AllOn(fs: FileSystem, d: Image, files: map<nat, OpenNaFile>, handles: map<nat, seq<byte>>,
    Repr: set<object>)
    reads Repr
  {
    && files.Keys == handles.Keys
    && forall h :: h in files ==> files[h].Repr() <= Repr && On(fs, d, files[h], handles[h])
  }

  lemma AllStay(fs: FileSystem, d: Image, e: Image, files: map<nat, OpenNaFile>, handles: map<nat, seq<byte>>,
    Repr: set<object>, gone: set<seq<byte>>)
    requires AllOn(fs, d, files, handles, Repr) && HandlesStay(d, e, gone) && forall h :: h in handles ==>
             handles[h] !in gone
    ensures AllOn(fs, e, files, handles, Repr)
  {
    hide Live;
  }

  lemma SameKeys(fs: FileSystem, d: Image, files: map<nat, OpenNaFile>, handles: map<nat, seq<byte>>, Repr: set<object>)
    requires AllOn(fs, d, files, handles, Repr)
    ensures files.Keys == handles.Keys
  {
    hide On;
  }

  lemma AllMore(fs: FileSystem, d: Image, files: map<nat, OpenNaFile>, handles: map<nat, seq<byte>>, Repr: set<object>,
                h: nat, file: OpenNaFile, key: seq<byte>)
    requires AllOn(fs, d, files, handles, Repr) && On(fs, d, file, key)
    ensures AllOn(fs, d, files[h := file], handles[h := key], Repr + file.Repr())
  {
    hide On;
  }

  lemma AllFewer(fs: FileSystem, d: Image, files: map<nat, OpenNaFile>, handles: map<nat, seq<byte>>, Repr: set<object>,
                 some: map<nat, OpenNaFile>, left: map<nat, seq<byte>>)
    requires AllOn(fs, d, files, handles, Repr) && some.Keys == left.Keys
    requires forall h :: h in some ==> h in files && h in handles && some[h] == files[h] && left[h] == handles[h]
    ensures AllOn(fs, d, some, left, Repr)
  {
    hide On;
  }

  lemma CreatedStay(d: Image, e: Image, key: seq<byte>, size: nat)
    requires FileCreated(d, e, key, size)
    ensures HandlesStay(d, e, {})
  {
  }

  lemma RemovedStay(d: Image, e: Image, key: seq<byte>)
    requires FileRemoved(d, e, key)
    ensures HandlesStay(d, e, {key})
  {
  }

  /** A file just opened shares nothing with the file system but the disk. */
  lemma Unshared(fs: FileSystem, file: OpenNaFile)
    requires fs.Valid() && file.disk == fs.disk && (file.Repr() - fs.disk.Repr()) !! fs.Repr()
    ensures file.Repr() * fs.Repr() == fs.disk.Repr()
  {
  }

  lemma OpenRefines(d: Image, handles: map<nat, seq<byte>>, next: nat, name: seq<byte>)
    requires Fsck(d) && Key(name) in Files(d)
    ensures StoreStep(StoreOn(d, handles, next), Open(name), Opened(next),
            StoreOn(d, handles[next := Key(name)], next + 1))
  {
    hide Fsck, Files, DirOn, BitsOn, Key, Absent, CountClear;
  }

  lemma OpenFails(d: Image, handles: map<nat, seq<byte>>, next: nat, name: seq<byte>)
    requires Fsck(d) && Key(name) !in Files(d)
    ensures StoreStep(StoreOn(d, handles, next), Open(name), Refused, StoreOn(d, handles, next))
  {
    hide Fsck, Files, DirOn, BitsOn, Key, Absent, CountClear;
  }

  lemma CloseRefines(d: Image, handles: map<nat, seq<byte>>, next: nat, h: nat)
    requires Fsck(d)
    ensures StoreStep(StoreOn(d, handles, next), Close(h), if h in handles then Done else Refused,
            StoreOn(d, handles - {h}, next))
  {
    hide Fsck, Files, DirOn, BitsOn, CountClear;
    assert h !in handles ==> handles - {h} == handles;
  }

  lemma WriteFails(d: Image, handles: map<nat, seq<byte>>, next: nat, h: nat, position: int32, data: seq<byte>)
    requires Fsck(d) && |data| <= INT_MAX && h !in handles
    ensures StoreStep(StoreOn(d, handles, next), WriteAt(h, position, data), Refused, StoreOn(d, handles, next))
  {
  }

  lemma WriteRefines(d: Image, e: Image, handles: map<nat, seq<byte>>, next: nat, h: nat, position: int32,
    data: seq<byte>)
    requires h in handles && FileWritten(d, e, handles[h], position, data)
    requires Admissible(StoreOn(d, handles, next), WriteAt(h, position, data))
    ensures StoreStep(StoreOn(d, handles, next), WriteAt(h, position, data),
                      Written(Granted(|Files(d)[handles[h]]|, |data|, position)), StoreOn(e, handles, next))
  {
    hide Fsck, Files, DirOn, BitsOn, WrittenOver, HandlesStay;
  }

  /** One file written, and one handle used up. */
  function Amended(s: Store, key: seq<byte>, position: int, data: seq<byte>): Store
    requires key in s.files
  {
    s.(files := s.files[key := WrittenOver(s.files[key], position, data)], next := s.next + 1)
  }

  // ---- users of the file system ------------------------------------------------------------------------

  /** A file system in use: the handles that are open on files that exist, with what they were opened as. */
  class Users {
    const fs: FileSystem
    var files: map<nat, OpenNaFile>
    var handles: map<nat, seq<byte>>
    var next: nat
    ghost var Repr: set<object>

    /** Every handle is live. */
    ghost predicate Valid()
      reads this, Repr
    {
      && this !in Repr && fs.Repr() <= Repr && fs.Valid() && AllOn(fs, fs.disk.Contents(), files, handles, Repr)
      && forall h :: h in files ==> h < next
    }

    ghost function State(): Store
      requires Valid()
      reads this, Repr
    {
      StoreOn(fs.disk.Contents(), handles, next)
    }

    constructor (fs: FileSystem)
      requires fs.Valid()
      ensures Valid() && this.fs == fs && Repr == fs.Repr() && State() == StoreOn(fs.disk.Contents(), map[], 0)
    {
      hide Fsck, FileSystem.Mounted, Files, BitsOn, CountClear;
      this.fs, files, handles, next, Repr := fs, map[], map[], 0, fs.Repr();
    }

    method Create(name: seq<byte>, size: int32) returns (o: Outcome)
      requires Valid() && Admissible(State(), Op.Create(name, size))
      modifies fs.disk.sectors
      ensures Valid()
      ensures StoreStep(old(State()), Op.Create(name, size), o, State())
    {
      hide Admissible, CanCreate, Fsck, Files, DirOn, BitsOn, Key, Creatable, FileCreated, StoreStep, StoreOn, On,
        HandlesStay, FileSystem.Mounted, FileSystem.Wired, FileSystem.Handles, OpenNaFile.Valid, Sound, Listing,
        FileBytes, Good, Distinct, DecodeHeader, CountClear;
      ghost var d := fs.disk.Contents();
      AdmissibleSize(d, name, size, handles, next);
      var ok := fs.Create(name, size);
      ghost var e := fs.disk.Contents();
      assert AllOn(fs, d, files, handles, Repr);
      hide AllOn;
      if ok {
        CreateRefines(d, e, name, size, handles, next);
        CreatedStay(d, e, Key(name), size);
        AllStay(fs, d, e, files, handles, Repr, {});
        o := Done;
      } else {
        CreateFails(d, name, size, handles, next);
        o := Refused;
      }
    }

    method Remove(name: seq<byte>) returns (o: Outcome)
      requires Valid()
      modifies this, fs.disk.sectors
      ensures Valid() && Repr == old(Repr)
      ensures StoreStep(old(State()), Op.Remove(name), o, State())
    {
      hide Fsck, Files, DirOn, BitsOn, Key, FileRemoved, StoreStep, StoreOn, On, HandlesStay, Absent,
        FileSystem.Mounted, FileSystem.Wired, FileSystem.Handles, OpenNaFile.Valid, Sound, Listing, FileBytes, Good,
        Distinct, DecodeHeader, CountClear;
      ghost var d := fs.disk.Contents();
      var ok := fs.Remove(name);
      ghost var e := fs.disk.Contents();
      assert AllOn(fs, d, files, handles, Repr);
      hide AllOn;
      if ok {
        RemoveRefines(d, e, name, handles, next);
        RemovedStay(d, e, Key(name));
        Drop(Key(name), d);
        o := Done;
      } else {
        RemoveFails(d, name, handles, next);
        o := Refused;
      }
    }

    /** The handles on a removed file are not to be used any more. */
    method Drop(key: seq<byte>, ghost d: Image)
      requires this !in Repr && fs.Repr() <= Repr && fs.Valid() && AllOn(fs, d, files, handles, Repr)
      requires HandlesStay(d, fs.disk.Contents(), {key}) && forall h :: h in files ==> h < next
      modifies this`files, this`handles
      ensures Valid() && handles == Others(old(handles), key)
    {
      hide AllOn, On, Fsck, HandlesStay, FileSystem.Valid;
      SameKeys(fs, d, files, handles, Repr);
      var some, left := Kept(files, Others(handles, key)), Others(handles, key);
      AllFewer(fs, d, files, handles, Repr, some, left);
      AllStay(fs, d, fs.disk.Contents(), some, left, Repr, {key});
      files, handles := some, left;
    }

    method Open(name: seq<byte>) returns (o: Outcome)
      requires Valid()
      modifies this
      ensures Valid() && fresh(Repr - old(Repr))
      ensures StoreStep(old(State()), Op.Open(name), o, State())
    {
      hide Fsck, Files, DirOn, BitsOn, Key, Live, Absent, StoreStep, StoreOn, AllOn, FileSystem.Mounted,
        OpenNaFile.Valid, Sound, Listing, FileBytes, Good, Distinct, DecodeHeader, CountClear;
      ghost var d := fs.disk.Contents();
      FsckListed(d, Key(name));
      var file := fs.Open(name);
      if file == null {
        OpenFails(d, handles, next, name);
        return Refused;
      }
      OpenRefines(d, handles, next, name);
      Unshared(fs, file);
      o := Opened(next);
      Add(file, Key(name));
    }

    method Add(file: OpenNaFile, key: seq<byte>)
      requires Valid() && On(fs, fs.disk.Contents(), file, key) && this !in file.Repr()
      modifies this
      ensures Valid() && Repr == old(Repr) + file.Repr()
      ensures handles == old(handles)[old(next) := key] && next == old(next) + 1
    {
      hide Fsck, On, AllOn, FileSystem.Mounted, FileSystem.Valid, OpenNaFile.Valid;
      AllMore(fs, fs.disk.Contents(), files, handles, Repr, next, file, key);
      files, handles, next, Repr := files[next := file], handles[next := key], next + 1, Repr + file.Repr();
    }

    /** The store has the file of every handle, and knows its length. */
    lemma FileOf(handle: nat)
      requires Valid() && handle in handles
      ensures handle in files && handles[handle] in Files(fs.disk.Contents())
      ensures |Files(fs.disk.Contents())[handles[handle]]| == files[handle].hdr.numBytes
    {
      hide Fsck, Files, DirOn, BitsOn, Live, FileSystem.Mounted, Sound, Listing, Distinct, DecodeHeader, CountClear;
      LiveFile(fs.disk.Contents(), files[handle].hdr.Value(), handles[handle]);
    }

    method Close(handle: nat) returns (o: Outcome)
      requires Valid()
      modifies this
      ensures Valid() && Repr == old(Repr)
      ensures StoreStep(old(State()), Op.Close(handle), o, State())
    {
      hide AllOn, Fsck, Files, DirOn, BitsOn, On, FileSystem.Mounted, FileSystem.Wired, FileSystem.Handles,
        OpenNaFile.Valid, Sound, Listing, FileBytes, Good, Distinct, DecodeHeader, CountClear;
      ghost var d := fs.disk.Contents();
      CloseRefines(d, handles, next, handle);
      hide StoreStep, StoreOn;
      if handle !in handles {
        assert handles - {handle} == handles;
        return Refused;
      }
      o := Done;
      SameKeys(fs, d, files, handles, Repr);
      AllFewer(fs, d, files, handles, Repr, files - {handle}, handles - {handle});
      files, handles := files - {handle}, handles - {handle};
    }

    method WriteAt(handle: nat, position: int32, data: seq<byte>) returns (o: Outcome)
      requires Valid() && Admissible(State(), Op.WriteAt(handle, position, data))
      modifies fs.disk.sectors
      ensures Valid()
      ensures StoreStep(old(State()), Op.WriteAt(handle, position, data), o, State())
    {
      hide Fsck, Files, DirOn, BitsOn, WrittenOver, HandlesStay, Live, On, FileWritten, FileSystem.Mounted,
        FileSystem.Wired, FileSystem.Handles, OpenNaFile.Valid, Sound, Listing, FileBytes, Good, Distinct,
        DecodeHeader, CountClear;
      if handle !in handles {
        WriteFails(fs.disk.Contents(), handles, next, handle, position, data);
        return Refused;
      }
      ghost var d := fs.disk.Contents();
      FileOf(handle);
      var n := WriteTo(handle, position, data);
      WriteRefines(d, fs.disk.Contents(), handles, next, handle, position, data);
      hide StoreStep;
      o := Written(n);
    }

    method WriteTo(handle: nat, position: int32, data: seq<byte>) returns (n: int32)
      requires Valid() && handle in files && handle in handles && |data| <= INT_MAX
      requires Sums(files[handle].hdr.numBytes, |data|, position)
      modifies fs.disk.sectors
      ensures Valid()
      ensures FileWritten(old(fs.disk.Contents()), fs.disk.Contents(), handles[handle], position, data)
      ensures n == Granted(|Files(old(fs.disk.Contents()))[handles[handle]]|, |data|, position)
    {
      hide Fsck, Files, DirOn, BitsOn, WrittenOver, HandlesStay, Live, On, FileSystem.Mounted, OpenNaFile.Valid,
        Sound, Listing, FileBytes, Good, Distinct, DecodeHeader, CountClear, FileWritten;
      ghost var d, key := fs.disk.Contents(), handles[handle];
      n := WriteBytes(fs, files[handle], key, data, position);
      WrittenStay(d, fs.disk.Contents(), key, position, data);
      AllStay(fs, d, fs.disk.Contents(), files, handles, Repr, {});
    }

    method ReadAt(handle: nat, position: int32, numBytes: int32) returns (o: Outcome)
      requires Valid() && Admissible(State(), Op.ReadAt(handle, position, numBytes))
      ensures StoreStep(State(), Op.ReadAt(handle, position, numBytes), o, State())
    {
      hide Fsck, Files, DirOn, BitsOn, On, FileSystem.Mounted, FileSystem.Wired, FileSystem.Handles, OpenNaFile.Valid,
        Sound, Listing, FileBytes, Good, Distinct, DecodeHeader, CountClear;
      if handle !in handles {
        return Refused;
      }
      FileOf(handle);
      var data := ReadLive(fs, files[handle], handles[handle], numBytes, position);
      o := Got(data);
    }

    method Step(op: Op) returns (o: Outcome)
      requires Valid() && Admissible(State(), op)
      modifies this, fs.disk.sectors
      ensures Valid() && fresh(Repr - old(Repr))
      ensures StoreStep(old(State()), op, o, State())
    {
      hide Fsck, AllOn, StoreStep, StoreOn, FileSystem.Mounted, FileSystem.Wired, FileSystem.Handles,
        OpenNaFile.Valid, Sound, Listing, FileBytes, Good, Distinct, DecodeHeader, CountClear;
      match op
      case Create(name, size) => o := Create(name, size);
      case Remove(name) => o := Remove(name);
      case Open(name) => o := Open(name);
      case Close(h) => o := Close(h);
      case WriteAt(h, position, data) => o := WriteAt(h, position, data);
      case ReadAt(h, position, numBytes) => o := ReadAt(h, position, numBytes);
    }

    /** A user's write in one go: open the file, write through the handle, close it. */
    method WriteByName(name: seq<byte>, position: int32, data: seq<byte>) returns (ok: bool)
      requires Valid() && |data| <= INT_MAX
      requires Key(name) in State().files ==> Sums(|State().files[Key(name)]|, |data|, position)
      modifies this, fs.disk.sectors
      ensures Valid() && fresh(Repr - old(Repr))
      ensures ok <==> Key(name) in old(State()).files
      ensures !ok ==> State() == old(State())
      ensures ok ==> State() == Amended(old(State()), Key(name), position, data)
    {
      hide Fsck, AllOn, StoreOn, Key, WrittenOver, FileSystem.Mounted, Sound, Listing, FileBytes, Good, Distinct,
        DecodeHeader, CountClear;
      ghost var s := State();
      FreshNext();
      var o := Open(name);
      ok := o.Opened?;
      if ok {
        ghost var t := State();
        hide StoreStep;
        var written := WriteAt(o.handle, position, data);
        ghost var u := State();
        var closed := Close(o.handle);
        OpenWriteClose(s, t, u, State(), name, position, data, o, written, closed);
      }
    }

    lemma FreshNext()
      requires Valid()
      ensures State().next !in State().handles
    {
    }
  }

  lemma OpenWriteClose(s: Store, t: Store, u: Store, v: Store, name: seq<byte>,
                      position: int32, data: seq<byte>, o: Outcome, p: Outcome, q: Outcome)
    requires s.next !in s.handles && o == Opened(s.next)
    requires StoreStep(s, Open(name), o, t) && Admissible(t, WriteAt(s.next, position, data))
    requires StoreStep(t, WriteAt(s.next, position, data), p, u) && StoreStep(u, Close(s.next), q, v)
    ensures Key(name) in s.files
    ensures v == Amended(s, Key(name), position, data)
  {
    hide Key, WrittenOver;
    assert s.handles[s.next := Key(name)] - {s.next} == s.handles;
  }

  // ---- runs ------------------------------------------------------------------------------------------

  /** Store `b` can be reached from `a` by `ops` with outcomes `os`. */
  ghost predicate StoreRun(trace: seq<Store>, ops: seq<Op>, os: seq<Outcome>) {
    && |trace| == |ops| + 1 && |os| == |ops|
    && forall i :: 0 <= i < |ops| ==> Admissible(trace[i], ops[i]) && StoreStep(trace[i], ops[i], os[i], trace[i + 1])
  }

  lemma RunNone(a: Store, ops: seq<Op>)
    ensures StoreRun([a], ops[..0], [])
  {
  }

  lemma RunMore(trace: seq<Store>, ops: seq<Op>, os: seq<Outcome>, i: nat, o: Outcome, b: Store)
    requires i < |ops| && StoreRun(trace, ops[..i], os)
    requires Admissible(trace[i], ops[i]) && StoreStep(trace[i], ops[i], o, b)
    ensures StoreRun(trace + [b], ops[..i + 1], os + [o])
  {
    hide StoreStep, Admissible;
    assert ops[..i + 1][..i] == ops[..i];
  }

  /** Callers keep their side in each step of a run of the store, however it turns out. */
  ghost predicate Careful(a: Store, ops: seq<Op>)
    decreases |ops|
  {
    ops != [] ==>
      Admissible(a, ops[0]) && forall o: Outcome, b: Store :: StoreStep(a, ops[0], o, b) ==> Careful(b, ops[1..])
  }

  lemma CarefulNow(a: Store, ops: seq<Op>, i: nat)
    requires i < |ops| && Careful(a, ops[i..])
    ensures Admissible(a, ops[i])
  {
  }

  lemma CarefulThen(a: Store, ops: seq<Op>, i: nat, o: Outcome, b: Store)
    requires i < |ops| && Careful(a, ops[i..]) && Admissible(a, ops[i]) && StoreStep(a, ops[i], o, b)
    ensures Careful(b, ops[i + 1..])
  {
    assert ops[i..][0] == ops[i] && ops[i..][1..] == ops[i + 1..];
  }

  /** Any sequence of operations at all, with any handles open in between: the disk stays sound, every handle
      on a file that exists stays live, and every outcome, what reads return included, is the store's. */
  method Run(fs: FileSystem, ops: seq<Op>) returns (u: Users, os: seq<Outcome>, ghost trace: seq<Store>)
    requires fs.Valid() && Careful(StoreOn(fs.disk.Contents(), map[], 0), ops)
    modifies fs.disk.sectors
    ensures u.Valid() && u.fs == fs && StoreRun(trace, ops, os)
    ensures trace[0] == old(StoreOn(fs.disk.Contents(), map[], 0)) && trace[|ops|] == u.State()
  {
    hide Fsck, StoreStep, StoreOn, Admissible, Careful, StoreRun, AllOn, FileSystem.Mounted;
    assert ops[0..] == ops;
    u := new Users(fs);
    os, trace := [], [u.State()];
    RunNone(u.State(), ops);
    var i := 0;
    while i < |ops|
      invariant 0 <= i <= |ops| && u.Valid() && u.fs == fs && fresh(u) && |trace| == i + 1
                && StoreRun(trace, ops[..i], os)
      invariant trace[0] == old(StoreOn(fs.disk.Contents(), map[], 0)) && trace[i] == u.State()
      invariant Careful(u.State(), ops[i..])
    {
      ghost var a := u.State();
      CarefulNow(a, ops, i);
      var o := u.Step(ops[i]);
      CarefulThen(a, ops, i, o, u.State());
      RunMore(trace, ops, os, i, o, u.State());
      os, trace := os + [o], trace + [u.State()];
      i := i + 1;
    }
    assert ops[..i] == ops;
  }

  /** What a handle reads is what was last written there, through any handle on the file, if nothing else has
      happened since. */
  lemma WrittenRead(a: Store, h: nat, g: nat, position: int32, data: seq<byte>, b: Store, o: Outcome, p: Outcome)
    requires h in a.handles && g in a.handles && a.handles[g] == a.handles[h] && |data| <= INT_MAX
    requires Admissible(a, Op.WriteAt(h, position, data)) && StoreStep(a, Op.WriteAt(h, position, data), o, b)
    requires Admissible(b, Op.ReadAt(g, position, |data|)) && StoreStep(b, Op.ReadAt(g, position, |data|), p, b)
    ensures o.Written? && p == Got(data[..o.count])
  {
    var file := a.files[a.handles[h]];
    var n := Granted(|file|, |data|, position);
    if n > 0 {
      assert Splice(file, position, data[..n])[position..position + n] == data[..n];
    }
  }
}
