// A disk image read as a volume, and as a map from names to contents.
module MountedDisk {
  import opened Collections
  import opened Codec
  import opened SectorDisk
  import opened HeaderValue
  import opened Bitmaps
  import opened PersistentBitmaps
  import opened Directories
  import opened Volumes

  function HeaderAt(d: Image, s: int): Header
    requires 0 <= s < DISK_NUM_SECTORS
  {
    DecodeHeader(d[s])
  }

  predicate Mountable(d: Image) {
    && Good(HeaderAt(d, FREE_MAP_SECTOR)) && HeaderAt(d, FREE_MAP_SECTOR).numBytes == FREE_MAP_FILE_SIZE
    && Good(HeaderAt(d, DIRECTORY_SECTOR)) && HeaderAt(d, DIRECTORY_SECTOR).numBytes == DIRECTORY_FILE_SIZE
  }

  function BitsOn(d: Image): (s: seq<bool>)
    requires Mountable(d)
    ensures |s| == DISK_NUM_SECTORS
  {
    BitsOf(DecodeWords(FileBytes(d, HeaderAt(d, FREE_MAP_SECTOR))), DISK_NUM_SECTORS)
  }

  function DirOn(d: Image): (t: seq<Entry>)
    requires Mountable(d)
    ensures |t| == NUM_DIR_ENTRIES
  {
    DecodeTable(FileBytes(d, HeaderAt(d, DIRECTORY_SECTOR)))
  }

  function HeaderFor(d: Image, dir: seq<Entry>, f: nat): Header
    requires |dir| == NUM_DIR_ENTRIES && f < NUM_FILES
  {
    if f < FIRST_FILE then HeaderAt(d, f)
    else
      var e := dir[f - FIRST_FILE];
      if e.inUse && 0 <= e.sector < DISK_NUM_SECTORS then HeaderAt(d, e.sector) else HeaderAt(d, FREE_MAP_SECTOR)
  }

  function View(d: Image): (v: Volume)
    requires Mountable(d)
    ensures Shaped(v)
  {
    Volume(BitsOn(d), DirOn(d), seq(NUM_FILES, f requires 0 <= f < NUM_FILES => HeaderFor(d, DirOn(d), f)))
  }

  /** The check a file system checker would run on the raw disk. */
  ghost predicate Fsck(d: Image) {
    Mountable(d) && Sound(View(d))
  }

  /** The contents of the file in directory entry `k`. */
  function Body(d: Image, v: Volume, k: nat): seq<byte>
    requires Shaped(v) && k < NUM_DIR_ENTRIES
  {
    if Good(v.hdrs[FIRST_FILE + k]) then FileBytes(d, v.hdrs[FIRST_FILE + k]) else []
  }

  /** The names in use. */
  function Names(dir: seq<Entry>): set<seq<byte>> {
    set k | 0 <= k < |dir| && dir[k].inUse :: Key(dir[k].name)
  }

  /** The first entry that holds `key`. */
  function Lookup(dir: seq<Entry>, key: seq<byte>): (k: nat)
    requires !Absent(dir, key)
    ensures k < |dir| && Holds(dir, k, key)
  {
    if Holds(dir, 0, key) then 0
    else
      assert exists i :: 0 <= i < |dir| && Holds(dir, i, key);
      assert forall i :: 0 < i < |dir| ==> Holds(dir[1..], i - 1, key) == Holds(dir, i, key);
      1 + Lookup(dir[1..], key)
  }

  lemma LookupOnly(dir: seq<Entry>, k: nat)
    requires NamesDistinct(dir) && k < |dir| && dir[k].inUse
    ensures !Absent(dir, Key(dir[k].name)) && Lookup(dir, Key(dir[k].name)) == k
  {
    hide Key;
    assert Holds(dir, k, Key(dir[k].name));
    var j := Lookup(dir, Key(dir[k].name));
  }

  lemma NamedIff(dir: seq<Entry>, key: seq<byte>)
    ensures key in Names(dir) <==> !Absent(dir, key)
  {
    hide Key;
    if key in Names(dir) {
      var k :| 0 <= k < |dir| && dir[k].inUse && Key(dir[k].name) == key;
      assert Holds(dir, k, key);
    }
  }

  /** The files a user sees: name to contents. */
  function Listing(d: Image, v: Volume): map<seq<byte>, seq<byte>>
    requires Shaped(v)
  {
    map key | key in Names(v.dir) :: NamedIff(v.dir, key); Body(d, v, Lookup(v.dir, key))
  }

  ghost function Files(d: Image): map<seq<byte>, seq<byte>>
    requires Fsck(d)
  {
    Listing(d, View(d))
  }

  // ---- changes that leave users' files alone -----------------------------------------------------

  /** `e` is `d` except for sectors nobody owns and the data of the free map and the directory. */
  ghost predicate MetaOnly(d: Image, e: Image, own: seq<Owner>)
    requires |own| == DISK_NUM_SECTORS
  {
    forall s :: 0 <= s < DISK_NUM_SECTORS && own[s].Own? && (own[s].file >= FIRST_FILE || own[s].at == 0) ==>
      e[s] == d[s]
  }

  lemma MetaKeeps(d: Image, e: Image, own: seq<Owner>)
    requires Mountable(d) && Consistent(View(d), own) && MetaOnly(d, e, own)
    ensures HeaderAt(e, FREE_MAP_SECTOR) == HeaderAt(d, FREE_MAP_SECTOR)
    ensures HeaderAt(e, DIRECTORY_SECTOR) == HeaderAt(d, DIRECTORY_SECTOR)
  {
    hide Claim, BitsOn, DirOn;
    OwnData(View(d), own, MAP_FILE);
    OwnData(View(d), own, DIR_FILE);
  }

  /** A user's file is where it was and holds what it held. */
  ghost predicate SameFile(d: Image, e: Image, v: Volume, k: nat)
    requires Shaped(v) && k < NUM_DIR_ENTRIES
  {
    var s := v.dir[k].sector;
    && 0 <= s < DISK_NUM_SECTORS && v.hdrs[FIRST_FILE + k] == HeaderAt(d, s) && Good(v.hdrs[FIRST_FILE + k])
    && HeaderAt(e, s) == HeaderAt(d, s)
    && FileBytes(e, HeaderAt(d, s)) == FileBytes(d, HeaderAt(d, s))
  }

  lemma MetaKeepsFile(d: Image, e: Image, own: seq<Owner>, k: nat)
    requires Mountable(d) && Consistent(View(d), own) && MetaOnly(d, e, own)
    requires k < NUM_DIR_ENTRIES && View(d).dir[k].inUse
    ensures SameFile(d, e, View(d), k)
  {
    hide Claim, BitsOn, DirOn, FileBytes;
    var v := View(d);
    OwnData(v, own, FIRST_FILE + k);
    assert InUse(v, FIRST_FILE + k);
    FileBytesFrame(d, e, v.hdrs[FIRST_FILE + k]);
  }

  // ---- the disk after each operation ----------------------------------------------------------------

  /** After Create's writes the disk reads as the volume with the new file. */
  lemma CreatedView(d: Image, e: Image, own: seq<Owner>, k: nat, en: Entry, h: Header)
    requires Mountable(d) && Consistent(View(d), own) && MetaOnly(d, e, own)
    requires k < NUM_DIR_ENTRIES && !DirOn(d)[k].inUse && en.inUse && 0 <= en.sector < DISK_NUM_SECTORS
    requires HeaderAt(e, en.sector) == h
    requires Mountable(e) && DirOn(e) == DirOn(d)[k := en]
    ensures View(e) == WithFile(View(d), BitsOn(e), k, en, h)
  {
    hide BitsOn, DirOn, Claim, DecodeHeader, FileBytes, Good, NamesDistinct, Partitioned, MetaOnly;
    var v := View(d);
    MetaKeeps(d, e, own);
    forall f | 0 <= f < NUM_FILES ensures View(e).hdrs[f] == WithFile(v, BitsOn(e), k, en, h).hdrs[f] {
      if f >= FIRST_FILE && f != FIRST_FILE + k && v.dir[f - FIRST_FILE].inUse {
        MetaKeepsFile(d, e, own, f - FIRST_FILE);
      }
    }
  }

  /** After Remove's writes the disk reads as the volume without the file. */
  lemma RemovedView(d: Image, e: Image, own: seq<Owner>, k: nat)
    requires Mountable(d) && Consistent(View(d), own) && MetaOnly(d, e, own)
    requires k < NUM_DIR_ENTRIES && DirOn(d)[k].inUse
    requires Mountable(e) && DirOn(e) == DirOn(d)[k := DirOn(d)[k].(inUse := false)]
    ensures View(e) == WithoutFile(View(d), BitsOn(e), k)
  {
    hide BitsOn, DirOn, Claim, DecodeHeader, FileBytes, Good, NamesDistinct, Partitioned, MetaOnly;
    var v := View(d);
    MetaKeeps(d, e, own);
    forall f | 0 <= f < NUM_FILES ensures View(e).hdrs[f] == WithoutFile(v, BitsOn(e), k).hdrs[f] {
      if f >= FIRST_FILE && f != FIRST_FILE + k && v.dir[f - FIRST_FILE].inUse {
        MetaKeepsFile(d, e, own, f - FIRST_FILE);
      }
    }
  }

  lemma ListingHas(d: Image, v: Volume, k: nat)
    requires Shaped(v) && NamesDistinct(v.dir) && k < NUM_DIR_ENTRIES && v.dir[k].inUse
    ensures Key(v.dir[k].name) in Listing(d, v)
    ensures Listing(d, v)[Key(v.dir[k].name)] == Body(d, v, k)
  {
    hide Body, Key, Names;
    LookupOnly(v.dir, k);
    NamedIff(v.dir, Key(v.dir[k].name));
  }

  lemma ListingFrom(d: Image, v: Volume, key: seq<byte>) returns (k: nat)
    requires Shaped(v) && NamesDistinct(v.dir) && key in Listing(d, v)
    ensures k < NUM_DIR_ENTRIES && Holds(v.dir, k, key) && Listing(d, v)[key] == Body(d, v, k)
  {
    hide Body, Key, Names;
    NamedIff(v.dir, key);
    k := Lookup(v.dir, key);
  }

  /** A name is listed exactly if some entry holds it. */
  lemma ListedIff(d: Image, v: Volume, key: seq<byte>)
    requires Shaped(v) && NamesDistinct(v.dir)
    ensures key in Listing(d, v) <==> !Absent(v.dir, key)
  {
    hide Body, Key, Listing;
    if key in Listing(d, v) {
      var k := ListingFrom(d, v, key);
    }
    if !Absent(v.dir, key) {
      var k :| 0 <= k < |v.dir| && Holds(v.dir, k, key);
      ListingHas(d, v, k);
    }
  }

  /** The listing gains exactly the new name. */
  lemma CreatedListing(d: Image, e: Image, v: Volume, n: Volume, k: nat, en: Entry)
    requires Shaped(v) && Shaped(n) && NamesDistinct(v.dir) && NamesDistinct(n.dir)
    requires k < NUM_DIR_ENTRIES && !v.dir[k].inUse && en.inUse && Absent(v.dir, Key(en.name))
    requires n.dir == v.dir[k := en]
    requires forall j :: 0 <= j < NUM_DIR_ENTRIES && v.dir[j].inUse ==> Body(e, n, j) == Body(d, v, j)
    ensures Listing(e, n) == Listing(d, v)[Key(en.name) := Body(e, n, k)]
  {
    hide Listing, Body, Key;
    var l, m := Listing(d, v)[Key(en.name) := Body(e, n, k)], Listing(e, n);
    forall key | key in m ensures key in l && m[key] == l[key] {
      var j := ListingFrom(e, n, key);
      if j != k {
        assert !Holds(v.dir, j, Key(en.name));
        ListingHas(d, v, j);
      }
    }
    forall key | key in l ensures key in m {
      if key == Key(en.name) {
        ListingHas(e, n, k);
      } else {
        var j := ListingFrom(d, v, key);
        ListingHas(e, n, j);
      }
    }
  }

  /** The listing loses exactly the removed name. */
  lemma RemovedListing(d: Image, e: Image, v: Volume, n: Volume, k: nat)
    requires Shaped(v) && Shaped(n) && NamesDistinct(v.dir) && NamesDistinct(n.dir)
    requires k < NUM_DIR_ENTRIES && v.dir[k].inUse
    requires n.dir == v.dir[k := v.dir[k].(inUse := false)]
    requires forall j :: 0 <= j < NUM_DIR_ENTRIES && j != k && v.dir[j].inUse ==> Body(e, n, j) == Body(d, v, j)
    ensures Listing(e, n) == Listing(d, v) - {Key(v.dir[k].name)}
  {
    hide Listing, Body, Key;
    var l, m := Listing(d, v) - {Key(v.dir[k].name)}, Listing(e, n);
    forall key | key in m ensures key in l && m[key] == l[key] {
      var j := ListingFrom(e, n, key);
      ListingHas(d, v, j);
    }
    forall key | key in l ensures key in m {
      var j := ListingFrom(d, v, key);
      ListingHas(e, n, j);
    }
  }

  // ---- writing through an open file ---------------------------------------------------------------------

  /** `e` is `d` except for data sectors of file `f`. */
  ghost predicate DataOnly(d: Image, e: Image, own: seq<Owner>, f: nat)
    requires |own| == DISK_NUM_SECTORS
  {
    forall s :: 0 <= s < DISK_NUM_SECTORS && !(own[s].Own? && own[s].file == f && own[s].at > 0) ==> e[s] == d[s]
  }

  lemma OnlyDataOwned(d: Image, e: Image, v: Volume, own: seq<Owner>, f: nat)
    requires Consistent(v, own) && f < NUM_FILES && InUse(v, f)
    requires Good(v.hdrs[f]) && OnlyData(d, e, v.hdrs[f])
    ensures DataOnly(d, e, own, f)
  {
    hide Claim, Good, Distinct, FilesGood, NamesDistinct, Partitioned;
    var h := v.hdrs[f];
    OwnData(v, own, f);
    forall s | 0 <= s < |own| && s in Data(h) ensures own[s].Own? && own[s].file == f && own[s].at > 0 {
      var i :| 0 <= i < |Data(h)| && Data(h)[i] == s;
      assert Data(h)[i] == h.dataSectors[i];
    }
  }

  lemma DataOnlyKeeps(d: Image, e: Image, v: Volume, own: seq<Owner>, f: nat, g: nat)
    requires Consistent(v, own) && f < NUM_FILES && g < NUM_FILES && InUse(v, g) && DataOnly(d, e, own, f)
    ensures Good(v.hdrs[g]) && 0 <= HdrSector(v, g) < DISK_NUM_SECTORS
    ensures e[HdrSector(v, g)] == d[HdrSector(v, g)]
    ensures f != g ==> FileBytes(e, v.hdrs[g]) == FileBytes(d, v.hdrs[g])
  {
    hide Claim, FileBytes, NamesDistinct, Partitioned, Distinct;
    OwnData(v, own, g);
    if f != g {
      FileBytesFrame(d, e, v.hdrs[g]);
    }
  }

  /** Writing only the data sectors of one user's file leaves the free map and directory as they were. */
  lemma WriteKeepsMeta(d: Image, e: Image, own: seq<Owner>, k: nat)
    requires Mountable(d) && Consistent(View(d), own) && k < NUM_DIR_ENTRIES
    requires DataOnly(d, e, own, FIRST_FILE + k)
    ensures HeaderAt(e, FREE_MAP_SECTOR) == HeaderAt(d, FREE_MAP_SECTOR)
            && HeaderAt(e, DIRECTORY_SECTOR) == HeaderAt(d, DIRECTORY_SECTOR)
    ensures Mountable(e) && BitsOn(e) == BitsOn(d) && DirOn(e) == DirOn(d)
  {
    var v := View(d);
    hide Claim, FileBytes, BitsOf, DecodeWords, DecodeTable, DecodeHeader, NamesDistinct, Partitioned, DataOnly, Good;
    DataOnlyKeeps(d, e, v, own, FIRST_FILE + k, MAP_FILE);
    DataOnlyKeeps(d, e, v, own, FIRST_FILE + k, DIR_FILE);
  }

  lemma WriteKeepsHeader(d: Image, e: Image, own: seq<Owner>, k: nat, f: nat)
    requires Mountable(d) && Consistent(View(d), own) && k < NUM_DIR_ENTRIES && f < NUM_FILES
    requires DataOnly(d, e, own, FIRST_FILE + k) && HeaderAt(e, FREE_MAP_SECTOR) == HeaderAt(d, FREE_MAP_SECTOR)
    ensures HeaderFor(e, DirOn(d), f) == HeaderFor(d, DirOn(d), f)
  {
    hide Claim, FileBytes, BitsOf, BitsOn, DirOn, NamesDistinct, Partitioned, DataOnly, Good, Mountable, Distinct;
    if InUse(View(d), f) {
      DataOnlyKeeps(d, e, View(d), own, FIRST_FILE + k, f);
    }
  }

  /** It leaves the volume exactly as it was. */
  lemma WriteKeepsView(d: Image, e: Image, own: seq<Owner>, k: nat)
    requires Mountable(d) && Consistent(View(d), own) && k < NUM_DIR_ENTRIES && DirOn(d)[k].inUse
    requires DataOnly(d, e, own, FIRST_FILE + k)
    ensures Mountable(e) && View(e) == View(d)
  {
    var v := View(d);
    hide Claim, FileBytes, BitsOf, BitsOn, DirOn, DecodeHeader, NamesDistinct, Partitioned, DataOnly, Good, Mountable;
    WriteKeepsMeta(d, e, own, k);
    forall f | 0 <= f < NUM_FILES ensures View(e).hdrs[f] == v.hdrs[f] {
      WriteKeepsHeader(d, e, own, k, f);
    }
  }

  /** And every other user's file. */
  lemma WriteKeepsOthers(d: Image, e: Image, v: Volume, own: seq<Owner>, k: nat)
    requires Consistent(v, own) && k < NUM_DIR_ENTRIES && DataOnly(d, e, own, FIRST_FILE + k)
    ensures forall j :: 0 <= j < NUM_DIR_ENTRIES && j != k && v.dir[j].inUse ==> Body(e, v, j) == Body(d, v, j)
  {
    hide Claim, FileBytes, NamesDistinct, Partitioned, DataOnly, Good;
    forall j | 0 <= j < NUM_DIR_ENTRIES && j != k && v.dir[j].inUse ensures Body(e, v, j) == Body(d, v, j) {
      assert InUse(v, FIRST_FILE + j);
      DataOnlyKeeps(d, e, v, own, FIRST_FILE + k, FIRST_FILE + j);
    }
  }

  /** The listing changes at exactly that file's name. */
  lemma WriteListing(d: Image, e: Image, v: Volume, k: nat)
    requires Shaped(v) && NamesDistinct(v.dir) && k < NUM_DIR_ENTRIES && v.dir[k].inUse
    requires forall j :: 0 <= j < NUM_DIR_ENTRIES && j != k && v.dir[j].inUse ==> Body(e, v, j) == Body(d, v, j)
    ensures Listing(e, v) == Listing(d, v)[Key(v.dir[k].name) := Body(e, v, k)]
  {
    hide Listing, Body, Key;
    var l, m := Listing(d, v)[Key(v.dir[k].name) := Body(e, v, k)], Listing(e, v);
    forall key | key in m ensures key in l && m[key] == l[key] {
      var j := ListingFrom(e, v, key);
      ListingHas(d, v, j);
    }
    forall key | key in l ensures key in m {
      if key == Key(v.dir[k].name) {
        ListingHas(e, v, k);
      } else {
        var j := ListingFrom(d, v, key);
        ListingHas(e, v, j);
      }
    }
  }
}
