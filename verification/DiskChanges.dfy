// What the writes of Create, Remove and format do to a disk image.
module DiskChanges {
  import opened Collections
  import opened Codec
  import opened SectorDisk
  import opened HeaderValue
  import opened Bitmaps
  import opened FileHeaders
  import opened PersistentBitmaps
  import opened Directories
  import opened Volumes
  import opened MountedDisk

  // ---- what the writes of an operation amount to ---------------------------------------------------

  /** Rewriting the data of the directory and then of the free map (or the other way round) changes
      nothing anybody else owns, and each of the two keeps what was written to it. */
  lemma MetaWrites(d: Image, d1: Image, d2: Image, d3: Image, v: Volume, own: seq<Owner>, first: nat, second: nat)
    requires Consistent(v, own) && first < FIRST_FILE && second < FIRST_FILE && first != second
    requires Good(v.hdrs[first]) && Good(v.hdrs[second])
    requires forall s :: 0 <= s < DISK_NUM_SECTORS && own[s] != Free ==> d1[s] == d[s]
    requires OnlyData(d1, d2, v.hdrs[first]) && OnlyData(d2, d3, v.hdrs[second])
    ensures MetaOnly(d, d3, own)
    ensures forall s :: 0 <= s < DISK_NUM_SECTORS && own[s] == Free ==> d3[s] == d1[s]
    ensures FileBytes(d3, v.hdrs[first]) == FileBytes(d2, v.hdrs[first])
  {
    assert |own| == DISK_NUM_SECTORS;
    OnlyDataOwned(d1, d2, v, own, first);
    OnlyDataOwned(d2, d3, v, own, second);
    DataOnlyKeeps(d2, d3, v, own, second, first);
  }

  /** The sectors the file called `key` occupies, its header's first. */
  function Occupied(d: Image, key: seq<byte>): seq<int>
    requires Mountable(d) && !Absent(DirOn(d), key)
  {
    Claim(View(d), FIRST_FILE + Lookup(DirOn(d), key))
  }

  lemma FsckListed(d: Image, key: seq<byte>)
    requires Fsck(d)
    ensures key in Files(d) <==> !Absent(DirOn(d), key)
  {
    hide DirOn, Key, Listing, Absent, BitsOn, NamesDistinct;
    ListedIff(d, View(d), key);
  }

  /** `h` is the header, on disk `d`, of the file called `key`: what a live handle has in memory. */
  ghost predicate Live(d: Image, h: Header, key: seq<byte>) {
    Fsck(d) && exists k :: 0 <= k < NUM_DIR_ENTRIES && Holds(DirOn(d), k, key) && View(d).hdrs[FIRST_FILE + k] == h
  }

  /** Every live handle, except those on files called `gone`, is still live. */
  ghost predicate HandlesStay(d: Image, e: Image, gone: set<seq<byte>>) {
    forall h, key | key !in gone && Live(d, h, key) :: Live(e, h, key)
  }

  /** A live handle gives access to exactly the file's contents, and its sectors are all different. */
  lemma LiveFile(d: Image, h: Header, key: seq<byte>)
    requires Live(d, h, key)
    ensures Good(h) && Distinct(Data(h)) && key in Files(d) && Files(d)[key] == FileBytes(d, h)
  {
    hide DirOn, BitsOn, FileBytes, NamesDistinct, Partitioned, Claim, Key, Listing, Distinct, Data, HeaderFor,
      Mountable;
    var v := View(d);
    var own := SoundOwner(v);
    var k :| 0 <= k < NUM_DIR_ENTRIES && Holds(DirOn(d), k, key) && v.hdrs[FIRST_FILE + k] == h;
    assert v.dir == DirOn(d) && InUse(v, FIRST_FILE + k);
    OwnData(v, own, FIRST_FILE + k);
    ListingHas(d, v, k);
  }

  /** The header in the sector an entry names is live. */
  lemma FoundLive(d: Image, sector: int, key: seq<byte>)
    requires Fsck(d) && 0 <= sector < DISK_NUM_SECTORS
    requires exists k :: 0 <= k < NUM_DIR_ENTRIES && Holds(DirOn(d), k, key) && DirOn(d)[k].sector == sector
    ensures Live(d, HeaderAt(d, sector), key)
    ensures Good(HeaderAt(d, sector)) && Distinct(Data(HeaderAt(d, sector)))
  {
    hide DirOn, BitsOn, FileBytes, NamesDistinct, Partitioned, Claim, Key, Good, Distinct;
    var k :| 0 <= k < NUM_DIR_ENTRIES && Holds(DirOn(d), k, key) && DirOn(d)[k].sector == sector;
    assert View(d).hdrs[FIRST_FILE + k] == HeaderAt(d, sector);
    LiveFile(d, HeaderAt(d, sector), key);
  }

  /** Writing data of a live file leaves the disk sound, every handle live, and every other file alone. */
  lemma LiveWrite(d: Image, e: Image, h: Header, key: seq<byte>)
    requires Live(d, h, key) && Good(h) && OnlyData(d, e, h)
    ensures HeaderAt(e, FREE_MAP_SECTOR) == HeaderAt(d, FREE_MAP_SECTOR)
            && HeaderAt(e, DIRECTORY_SECTOR) == HeaderAt(d, DIRECTORY_SECTOR)
    ensures Fsck(e) && View(e) == View(d)
    ensures Files(e) == Files(d)[key := FileBytes(e, h)]
    ensures HandlesStay(d, e, {})
  {
    hide DirOn, BitsOn, FileBytes, NamesDistinct, Partitioned, Claim, Key, Listing, OnlyData, HeaderAt, DataOnly;
    var v := View(d);
    var own := SoundOwner(v);
    var k :| 0 <= k < NUM_DIR_ENTRIES && Holds(DirOn(d), k, key) && v.hdrs[FIRST_FILE + k] == h;
    OnlyDataOwned(d, e, v, own, FIRST_FILE + k);
    WriteKeepsMeta(d, e, own, k);
    WriteKeepsView(d, e, own, k);
    WriteKeepsOthers(d, e, v, own, k);
    WriteListing(d, e, v, k);
  }

  /** Handles survive any change of the volume that leaves the entries and headers of their files. */
  lemma KeptHandles(d: Image, e: Image, k: nat, gone: set<seq<byte>>)
    requires Fsck(d) && Fsck(e) && k < NUM_DIR_ENTRIES
    requires DirOn(d)[k].inUse ==> Key(DirOn(d)[k].name) in gone
    requires forall j {:trigger DirOn(d)[j]} :: 0 <= j < NUM_DIR_ENTRIES && j != k ==>
               DirOn(e)[j] == DirOn(d)[j] && View(e).hdrs[FIRST_FILE + j] == View(d).hdrs[FIRST_FILE + j]
    ensures HandlesStay(d, e, gone)
  {
    hide DirOn, BitsOn, Key, View, Sound;
    forall h, key | key !in gone && Live(d, h, key) ensures Live(e, h, key) {
      var i :| 0 <= i < NUM_DIR_ENTRIES && Holds(DirOn(d), i, key) && View(d).hdrs[FIRST_FILE + i] == h;
      assert i != k;
      assert Holds(DirOn(e), i, key);
    }
  }

  /** What Create has decided in memory before it writes: directory `t` has the new file in entry `k`,
      with header `h`, and the new free map `bits` has lost just that file's sectors. */
  ghost predicate Planned(d: Image, k: nat, t: seq<Entry>, h: Header, bits: seq<bool>) {
    && Mountable(d)
    && k < NUM_DIR_ENTRIES == |t| && !DirOn(d)[k].inUse && t == DirOn(d)[k := t[k]]
    && t[k].inUse && 0 <= t[k].sector < DISK_NUM_SECTORS && Absent(DirOn(d), Key(t[k].name))
    && Good(h) && Taken(BitsOn(d), bits, [t[k].sector] + Data(h))
  }

  /** The disk after each of Create's three writes. */
  ghost predicate Flushed(d: Image, d1: Image, d2: Image, d3: Image, s: int, h: Header, t: seq<Entry>,
    words: seq<bv32>) {
    && Mountable(d) && 0 <= s < DISK_NUM_SECTORS && WellShaped(h)
    && d1 == d[s := EncodeHeader(h)]
    && OnlyData(d1, d2, HeaderAt(d, DIRECTORY_SECTOR)) && FileBytes(d2, HeaderAt(d, DIRECTORY_SECTOR)) == EncodeTable(t)
    && OnlyData(d2, d3, HeaderAt(d, FREE_MAP_SECTOR))
    && FileBytes(d3, HeaderAt(d, FREE_MAP_SECTOR)) == EncodeWords(words)
  }

  /** `e` holds these three things, and is otherwise `d` as far as anybody's files go. */
  ghost predicate Rewritten(d: Image, e: Image, own: seq<Owner>, t: seq<Entry>, bits: seq<bool>) {
    && |own| == DISK_NUM_SECTORS && MetaOnly(d, e, own)
    && HeaderAt(e, FREE_MAP_SECTOR) == HeaderAt(d, FREE_MAP_SECTOR)
    && HeaderAt(e, DIRECTORY_SECTOR) == HeaderAt(d, DIRECTORY_SECTOR)
    && Mountable(e) && BitsOn(e) == bits && DirOn(e) == t
  }

  /** What was written to the two system files is what mounting reads. */
  lemma ReadsBack(d: Image, e: Image, t: seq<Entry>, bits: seq<bool>, words: seq<bv32>)
    requires Mountable(d) && |t| == NUM_DIR_ENTRIES && |bits| == DISK_NUM_SECTORS
    requires HeaderAt(e, FREE_MAP_SECTOR) == HeaderAt(d, FREE_MAP_SECTOR)
    requires HeaderAt(e, DIRECTORY_SECTOR) == HeaderAt(d, DIRECTORY_SECTOR)
    requires FileBytes(e, HeaderAt(d, FREE_MAP_SECTOR)) == EncodeWords(words) && Packs(words, bits)
    requires FileBytes(e, HeaderAt(d, DIRECTORY_SECTOR)) == EncodeTable(t)
    ensures Mountable(e) && BitsOn(e) == bits && DirOn(e) == t
  {
    hide FileBytes, BitsOf, EncodeWords, EncodeTable, DecodeWords, DecodeTable, Good;
    TableRoundTrip(t);
    WordsRoundTrip(words);
  }

  lemma CreatedDisk(d: Image, d1: Image, d2: Image, d3: Image, own: seq<Owner>, k: nat, t: seq<Entry>, h: Header,
    bits: seq<bool>, words: seq<bv32>)
    requires Planned(d, k, t, h, bits) && Consistent(View(d), own) && Packs(words, bits)
    requires Flushed(d, d1, d2, d3, t[k].sector, h, t, words)
    ensures Rewritten(d, d3, own, t, bits)
    ensures HeaderAt(d3, t[k].sector) == h
  {
    assert |own| == DISK_NUM_SECTORS;
    hide Key, FileBytes, Claim, Taken, OnlyData, BitsOf, Listing, NamesDistinct, Absent, MetaOnly, Good, Partitioned;
    var v, s := View(d), t[k].sector;
    NewSectorFree(v, own, bits, s, Data(h));
    MetaWrites(d, d1, d2, d3, v, own, DIR_FILE, MAP_FILE);
    MetaKeeps(d, d3, own);
    ReadsBack(d, d3, t, bits, words);
    HeaderRoundTrip(h);
  }

  /** The disk after Create: still sound, and one more file on it. */
  lemma Created(d: Image, e: Image, own: seq<Owner>, k: nat, t: seq<Entry>, h: Header, bits: seq<bool>)
    requires Planned(d, k, t, h, bits) && Consistent(View(d), own)
    requires Rewritten(d, e, own, t, bits) && HeaderAt(e, t[k].sector) == h
    ensures Fsck(e) && View(e) == WithFile(View(d), bits, k, t[k], h)
    ensures Listing(e, View(e)) == Listing(d, View(d))[Key(t[k].name) := FileBytes(e, h)]
    ensures Claim(View(e), FIRST_FILE + k) == [t[k].sector] + Data(h)
  {
    hide Key, FileBytes, Claim, Taken, Listing, NamesDistinct, Absent, MetaOnly, Good, Partitioned, Mountable, DirOn,
      BitsOn, HeaderAt;
    var v, en := View(d), t[k];
    assert v.dir == DirOn(d) && v.bits == BitsOn(d);
    CreatedView(d, e, own, k, en, h);
    AddKeepsSound(v, own, bits, k, en, h);
    AddClaims(v, bits, k, en, h);
    CreatedFiles(d, e, own, k, en, h);
  }

  lemma NewSectorFree(v: Volume, own: seq<Owner>, bits: seq<bool>, s: int, rest: seq<int>)
    requires Consistent(v, own) && Taken(v.bits, bits, [s] + rest)
    ensures 0 <= s < DISK_NUM_SECTORS && own[s] == Free
  {
    assert ([s] + rest)[0] == s;
  }

  lemma CreatedFiles(d: Image, e: Image, own: seq<Owner>, k: nat, en: Entry, h: Header)
    requires Mountable(d) && Mountable(e) && Consistent(View(d), own) && MetaOnly(d, e, own)
    requires k < NUM_DIR_ENTRIES && !DirOn(d)[k].inUse && en.inUse && Absent(DirOn(d), Key(en.name)) && Good(h)
    requires View(e) == WithFile(View(d), BitsOn(e), k, en, h) && NamesDistinct(View(e).dir)
    ensures Listing(e, View(e)) == Listing(d, View(d))[Key(en.name) := FileBytes(e, h)]
  {
    var v, n := View(d), View(e);
    hide Key, FileBytes, Claim, Partitioned, Listing, NamesDistinct, Absent, MetaOnly, View, DirOn, BitsOn;
    forall j | 0 <= j < NUM_DIR_ENTRIES && v.dir[j].inUse ensures Body(e, n, j) == Body(d, v, j) {
      MetaKeepsFile(d, e, own, j);
      assert j != k;
    }
    CreatedListing(d, e, v, n, k, en);
  }

  /** The effect of creating a file of `size` bytes called `key`: one more name, nothing else changed,
      and just the file's own sectors taken. */
  ghost predicate FileCreated(d: Image, e: Image, key: seq<byte>, size: nat) {
    && Fsck(d) && Fsck(e)
    && key !in Files(d) && key in Files(e) && |Files(e)[key]| == size
    && Files(e) == Files(d)[key := Files(e)[key]]
    && HandlesStay(d, e, {})
    && !Absent(DirOn(e), key) && Taken(BitsOn(d), BitsOn(e), Occupied(e, key))
  }

  /** The effect of removing a file: its name gone, nothing else changed, just its sectors given back. */
  ghost predicate FileRemoved(d: Image, e: Image, key: seq<byte>) {
    && Fsck(d) && Fsck(e)
    && key in Files(d) && Files(e) == Files(d) - {key}
    && HandlesStay(d, e, {key})
    && !Absent(DirOn(d), key) && Taken(BitsOn(e), BitsOn(d), Occupied(d, key))
  }

  // ---- removing ------------------------------------------------------------------------------------

  /** A user's file as Remove finds it: its sectors are marked, all different, and its header good. */
  lemma FileMarked(d: Image, own: seq<Owner>, k: nat)
    requires Mountable(d) && Consistent(View(d), own) && k < NUM_DIR_ENTRIES && DirOn(d)[k].inUse
    ensures 0 <= DirOn(d)[k].sector < DISK_NUM_SECTORS && Good(HeaderAt(d, DirOn(d)[k].sector))
    ensures View(d).hdrs[FIRST_FILE + k] == HeaderAt(d, DirOn(d)[k].sector)
    ensures var c := [DirOn(d)[k].sector] + Data(HeaderAt(d, DirOn(d)[k].sector));
            Claim(View(d), FIRST_FILE + k) == c && Distinct(c) && forall s :: s in c ==>
              0 <= s < DISK_NUM_SECTORS && BitsOn(d)[s]
  {
    hide DirOn, BitsOn, NamesDistinct, DecodeHeader, Partitioned, Claims;
    var v, f := View(d), FIRST_FILE + k;
    assert InUse(v, f) && HdrSector(v, f) == DirOn(d)[k].sector;
    ClaimMarked(v, own, f);
  }

  lemma ClaimMarked(v: Volume, own: seq<Owner>, f: nat)
    requires Consistent(v, own) && f < NUM_FILES
    ensures Distinct(Claim(v, f)) && forall s :: s in Claim(v, f) ==> 0 <= s < DISK_NUM_SECTORS && v.bits[s]
  {
    hide Claim, NamesDistinct, FilesGood;
    var c := Claim(v, f);
    forall i, j | 0 <= i < j < |c| ensures c[i] != c[j] {
      assert Claims(v, f, i) && Claims(v, f, j);
    }
    forall i | 0 <= i < |c| ensures 0 <= c[i] < DISK_NUM_SECTORS && v.bits[c[i]] {
      assert Claims(v, f, i);
    }
  }

  /** Clearing the header's sector as well as the data's. */
  lemma TakenClear(b0: seq<bool>, b1: seq<bool>, s: int, x: seq<int>)
    requires Taken(b1, b0, x) && Distinct<int>([s] + x) && 0 <= s < |b0| && b0[s]
    ensures Taken(b1[s := false], b0, [s] + x)
  {
    var c := [s] + x;
    assert forall i :: 0 <= i < |x| ==> c[i + 1] == x[i];
    assert s !in x by {
      assert c[0] == s;
    }
    assert forall i :: 0 < i < |c| ==> c[i] == x[i - 1];
  }

  /** What Remove has decided in memory before it writes. */
  ghost predicate Unplanned(d: Image, k: nat, t: seq<Entry>, bits: seq<bool>) {
    && Mountable(d) && k < NUM_DIR_ENTRIES && DirOn(d)[k].inUse
    && t == DirOn(d)[k := DirOn(d)[k].(inUse := false)]
    && Taken(bits, BitsOn(d), Claim(View(d), FIRST_FILE + k))
  }

  lemma RemovedDisk(d: Image, d2: Image, d3: Image, own: seq<Owner>, k: nat, t: seq<Entry>, bits: seq<bool>,
    words: seq<bv32>)
    requires Unplanned(d, k, t, bits) && Consistent(View(d), own) && Packs(words, bits)
    requires OnlyData(d, d2, HeaderAt(d, FREE_MAP_SECTOR))
             && FileBytes(d2, HeaderAt(d, FREE_MAP_SECTOR)) == EncodeWords(words)
    requires OnlyData(d2, d3, HeaderAt(d, DIRECTORY_SECTOR))
             && FileBytes(d3, HeaderAt(d, DIRECTORY_SECTOR)) == EncodeTable(t)
    ensures Rewritten(d, d3, own, t, bits)
  {
    assert |own| == DISK_NUM_SECTORS && |bits| == DISK_NUM_SECTORS;
    hide FileBytes, Claim, Taken, OnlyData, BitsOf, NamesDistinct, MetaOnly, Good, Partitioned, DirOn, BitsOn;
    MetaWrites(d, d, d2, d3, View(d), own, MAP_FILE, DIR_FILE);
    MetaKeeps(d, d3, own);
    ReadsBack(d, d3, t, bits, words);
  }

  lemma RemovedFiles(d: Image, e: Image, own: seq<Owner>, k: nat)
    requires Mountable(d) && Mountable(e) && Consistent(View(d), own) && MetaOnly(d, e, own)
    requires k < NUM_DIR_ENTRIES && DirOn(d)[k].inUse
    requires View(e) == WithoutFile(View(d), BitsOn(e), k) && NamesDistinct(View(e).dir)
    ensures Listing(e, View(e)) == Listing(d, View(d)) - {Key(DirOn(d)[k].name)}
  {
    var v, n := View(d), View(e);
    hide Key, FileBytes, Claim, Partitioned, Listing, NamesDistinct, Absent, MetaOnly, View, DirOn, BitsOn;
    forall j | 0 <= j < NUM_DIR_ENTRIES && j != k && v.dir[j].inUse ensures Body(e, n, j) == Body(d, v, j) {
      MetaKeepsFile(d, e, own, j);
    }
    RemovedListing(d, e, v, n, k);
  }

  /** The disk after Remove: still sound, one file fewer, and exactly its sectors free again. */
  lemma Removed(d: Image, e: Image, own: seq<Owner>, k: nat, t: seq<Entry>, bits: seq<bool>)
    requires Unplanned(d, k, t, bits) && Consistent(View(d), own) && Rewritten(d, e, own, t, bits)
    ensures Fsck(e) && View(e) == WithoutFile(View(d), bits, k)
    ensures Listing(e, View(e)) == Listing(d, View(d)) - {Key(DirOn(d)[k].name)}
  {
    hide Key, FileBytes, Claim, Taken, Listing, NamesDistinct, Absent, MetaOnly, Good, Partitioned, Mountable, DirOn,
      BitsOn, HeaderAt;
    var v := View(d);
    assert v.dir == DirOn(d) && v.bits == BitsOn(d);
    RemovedView(d, e, own, k);
    RemoveKeepsSound(v, own, bits, k);
    RemovedFiles(d, e, own, k);
  }

  lemma RemoveDone(d: Image, e: Image, own: seq<Owner>, k: nat, t: seq<Entry>, bits: seq<bool>)
    requires Unplanned(d, k, t, bits) && Consistent(View(d), own) && Rewritten(d, e, own, t, bits) && Fsck(d)
    ensures HeaderAt(e, FREE_MAP_SECTOR) == HeaderAt(d, FREE_MAP_SECTOR)
            && HeaderAt(e, DIRECTORY_SECTOR) == HeaderAt(d, DIRECTORY_SECTOR)
    ensures Fsck(e) && FileRemoved(d, e, Key(DirOn(d)[k].name))
  {
    hide Key, FileBytes, Claim, Taken, Listing, Absent, MetaOnly, Good, Mountable, DirOn, BitsOn, HeaderAt, Fsck,
      Consistent, FileRemoved, WithoutFile;
    Removed(d, e, own, k, t, bits);
    RemovedEffect(d, e, k);
  }

  lemma RemovedEffect(d: Image, e: Image, k: nat)
    requires Fsck(d) && Fsck(e) && k < NUM_DIR_ENTRIES && DirOn(d)[k].inUse
    requires View(e) == WithoutFile(View(d), BitsOn(e), k)
    requires Files(e) == Files(d) - {Key(DirOn(d)[k].name)}
    requires Taken(BitsOn(e), BitsOn(d), Claim(View(d), FIRST_FILE + k))
    ensures FileRemoved(d, e, Key(DirOn(d)[k].name))
  {
    hide Key, FileBytes, Claim, Taken, Listing, Absent, DirOn, BitsOn, Partitioned, HandlesStay, NamesDistinct;
    var key := Key(DirOn(d)[k].name);
    LookupOnly(DirOn(d), k);
    FsckListed(d, key);
    KeptHandles(d, e, k, {key});
  }

  // ---- formatting ----------------------------------------------------------------------------------

  /** Two headers, and the data of the free map's file and of the directory's. */
  const FORMAT_SECTORS := 5

  function NoBits(): (s: seq<bool>)
    ensures |s| == DISK_NUM_SECTORS && forall i :: 0 <= i < |s| ==> !s[i]
  {
    seq(DISK_NUM_SECTORS, i => false)
  }

  lemma NoBitsSet(bits: seq<bool>)
    requires bits == seq(DISK_NUM_SECTORS, i => false)
    ensures bits == NoBits()
  {
  }

  /** The system files of a sound disk can be opened. */
  lemma SystemFiles(d: Image)
    requires Fsck(d)
    ensures Distinct(Data(HeaderAt(d, FREE_MAP_SECTOR))) && Distinct(Data(HeaderAt(d, DIRECTORY_SECTOR)))
  {
    hide Claim, BitsOn, DirOn, NamesDistinct, Partitioned, DecodeHeader;
    var own := SoundOwner(View(d));
    OwnData(View(d), own, MAP_FILE);
    OwnData(View(d), own, DIR_FILE);
  }

  /** The bits left by marking sectors 0 and 1 and allocating the two files. */
  lemma FormatTaken(b0: seq<bool>, b1: seq<bool>, b2: seq<bool>, x: seq<int>, y: seq<int>) returns (m: seq<bool>)
    requires |b0| == DISK_NUM_SECTORS && forall i :: 0 <= i < |b0| ==> !b0[i]
    requires Taken(b0[FREE_MAP_SECTOR := true][DIRECTORY_SECTOR := true], b1, x) && Taken(b1, b2, y)
    ensures Taken(b0, m, [FREE_MAP_SECTOR] + x) && Taken(m, b2, [DIRECTORY_SECTOR] + y)
  {
    m := seq(DISK_NUM_SECTORS, i => i in [FREE_MAP_SECTOR] + x);
    var c, e := [FREE_MAP_SECTOR] + x, [DIRECTORY_SECTOR] + y;
    forall i, j | 0 <= i < j < |c| ensures c[i] != c[j] {
      assert j > 0 && c[j] == x[j - 1];
      assert i > 0 ==> c[i] == x[i - 1];
    }
    forall i, j | 0 <= i < j < |e| ensures e[i] != e[j] {
      assert j > 0 && e[j] == y[j - 1];
      assert i > 0 ==> e[i] == y[i - 1];
    }
    forall i | 0 <= i < |e| ensures 0 <= e[i] < DISK_NUM_SECTORS && !m[e[i]] {
      assert i > 0 ==> e[i] == y[i - 1];
    }
    forall i | 0 <= i < |c| ensures 0 <= c[i] < DISK_NUM_SECTORS {
      assert i > 0 ==> c[i] == x[i - 1];
    }
  }

  /** A volume with only the two system files on it, laid out like that, is sound. */
  lemma FormattedSound(v: Volume, b0: seq<bool>, m: seq<bool>)
    requires Shaped(v) && |b0| == DISK_NUM_SECTORS && forall i :: 0 <= i < |b0| ==> !b0[i]
    requires forall k :: 0 <= k < NUM_DIR_ENTRIES ==> !v.dir[k].inUse
    requires Good(v.hdrs[MAP_FILE]) && v.hdrs[MAP_FILE].numBytes == FREE_MAP_FILE_SIZE
    requires Good(v.hdrs[DIR_FILE]) && v.hdrs[DIR_FILE].numBytes == DIRECTORY_FILE_SIZE
    requires Taken(b0, m, [FREE_MAP_SECTOR] + Data(v.hdrs[MAP_FILE]))
    requires Taken(m, v.bits, [DIRECTORY_SECTOR] + Data(v.hdrs[DIR_FILE]))
    ensures Sound(v)
  {
    assert |m| == DISK_NUM_SECTORS;
    hide Claim, Partitioned, Taken, Claimed, FilesGood, NamesDistinct, Good, Data;
    var nobody := Header(-1, 0, []);
    var v0 := Volume(b0, v.dir, v.hdrs[MAP_FILE := nobody][DIR_FILE := nobody]);
    var v1 := Volume(m, v.dir, v.hdrs[DIR_FILE := nobody]);
    FormatClaims(v0, v1, v);
    FormatGood(v);
    var own := EmptyPartition(v0);
    AddKeepsPartition(v0, own, v1, MAP_FILE, [FREE_MAP_SECTOR] + Data(v.hdrs[MAP_FILE]));
    var own1 := Claimed(own, [FREE_MAP_SECTOR] + Data(v.hdrs[MAP_FILE]), MAP_FILE);
    AddKeepsPartition(v1, own1, v, DIR_FILE, [DIRECTORY_SECTOR] + Data(v.hdrs[DIR_FILE]));
  }

  lemma EmptyPartition(v: Volume) returns (own: seq<Owner>)
    requires Shaped(v) && (forall i :: 0 <= i < |v.bits| ==> !v.bits[i])
    requires forall f :: 0 <= f < NUM_FILES ==> Claim(v, f) == []
    ensures Partitioned(v, own)
  {
    hide Claim;
    own := seq(DISK_NUM_SECTORS, i => Free);
  }

  lemma FormatGood(v: Volume)
    requires Shaped(v) && forall k :: 0 <= k < NUM_DIR_ENTRIES ==> !v.dir[k].inUse
    requires Good(v.hdrs[MAP_FILE]) && v.hdrs[MAP_FILE].numBytes == FREE_MAP_FILE_SIZE
    requires Good(v.hdrs[DIR_FILE]) && v.hdrs[DIR_FILE].numBytes == DIRECTORY_FILE_SIZE
    ensures FilesGood(v) && NamesDistinct(v.dir)
  {
    hide Good, Key;
  }

  lemma FormatFrame(d1: Image, d2: Image, d3: Image, m: Header, t: Header, b0: seq<bool>, mid: seq<bool>,
    bits: seq<bool>)
    requires Good(m) && Good(t) && |b0| == DISK_NUM_SECTORS
    requires Taken(b0, mid, [FREE_MAP_SECTOR] + Data(m)) && Taken(mid, bits, [DIRECTORY_SECTOR] + Data(t))
    requires OnlyData(d1, d2, m) && OnlyData(d2, d3, t)
    ensures HeaderAt(d3, FREE_MAP_SECTOR) == HeaderAt(d1, FREE_MAP_SECTOR)
    ensures HeaderAt(d3, DIRECTORY_SECTOR) == HeaderAt(d1, DIRECTORY_SECTOR)
    ensures FileBytes(d3, m) == FileBytes(d2, m)
  {
    FormatApart(mid, bits, m, t, b0);
    assert d3[FREE_MAP_SECTOR] == d1[FREE_MAP_SECTOR] && d3[DIRECTORY_SECTOR] == d1[DIRECTORY_SECTOR];
    assert forall i :: 0 <= i < m.numSectors ==> m.dataSectors[i] == Data(m)[i];
    FileBytesFrame(d2, d3, m);
  }

  /** The disk after the writes of format. */
  lemma FormattedDisk(d1: Image, d2: Image, d3: Image, m: Header, t: Header, b0: seq<bool>, mid: seq<bool>,
    bits: seq<bool>,
                      words: seq<bv32>, table: seq<Entry>)
    requires Good(m) && m.numBytes == FREE_MAP_FILE_SIZE && Good(t) && t.numBytes == DIRECTORY_FILE_SIZE
    requires |b0| == DISK_NUM_SECTORS && (forall i :: 0 <= i < |b0| ==> !b0[i])
    requires Taken(b0, mid, [FREE_MAP_SECTOR] + Data(m)) && Taken(mid, bits, [DIRECTORY_SECTOR] + Data(t))
    requires |table| == NUM_DIR_ENTRIES && (forall k :: 0 <= k < NUM_DIR_ENTRIES ==> !table[k].inUse)
             && Packs(words, bits)
    requires HeaderAt(d1, FREE_MAP_SECTOR) == m && HeaderAt(d1, DIRECTORY_SECTOR) == t
    requires OnlyData(d1, d2, m) && FileBytes(d2, m) == EncodeWords(words)
    requires OnlyData(d2, d3, t) && FileBytes(d3, t) == EncodeTable(table)
    ensures HeaderAt(d3, FREE_MAP_SECTOR) == m && HeaderAt(d3, DIRECTORY_SECTOR) == t
    ensures Fsck(d3) && BitsOn(d3) == bits && DirOn(d3) == table && Files(d3) == map[]
  {
    hide FileBytes, Taken, OnlyData, EncodeTable, EncodeWords, BitsOf, DecodeHeader, Good, Data, BitsOn, DirOn, Sound;
    FormatFrame(d1, d2, d3, m, t, b0, mid, bits);
    assert |bits| == DISK_NUM_SECTORS by { TakenLength(b0, mid, bits, [FREE_MAP_SECTOR] + Data(m),
      [DIRECTORY_SECTOR] + Data(t)); }
    ReadsBack(d1, d3, table, bits, words);
    FormattedSound(View(d3), b0, mid);
    assert Names(table) == {};
  }

  lemma FormatCount(mid: seq<bool>, bits: seq<bool>, m: Header, t: Header)
    requires Good(m) && m.numBytes == FREE_MAP_FILE_SIZE && Good(t) && t.numBytes == DIRECTORY_FILE_SIZE
    requires Taken(NoBits(), mid, [FREE_MAP_SECTOR] + Data(m)) && Taken(mid, bits, [DIRECTORY_SECTOR] + Data(t))
    ensures CountClear(bits) == DISK_NUM_SECTORS - FORMAT_SECTORS
  {
    CountClearAll(NoBits());
    TakenCount(NoBits(), mid, [FREE_MAP_SECTOR] + Data(m));
    TakenCount(mid, bits, [DIRECTORY_SECTOR] + Data(t));
  }

  lemma TakenLength(b0: seq<bool>, b1: seq<bool>, b2: seq<bool>, x: seq<int>, y: seq<int>)
    requires Taken(b0, b1, x) && Taken(b1, b2, y)
    ensures |b2| == |b0|
  {
  }

  /** The two system files and their headers do not overlap. */
  lemma FormatApart(mid: seq<bool>, bits: seq<bool>, m: Header, t: Header, b0: seq<bool>)
    requires Good(m) && Good(t) && |b0| == DISK_NUM_SECTORS
    requires Taken(b0, mid, [FREE_MAP_SECTOR] + Data(m)) && Taken(mid, bits, [DIRECTORY_SECTOR] + Data(t))
    ensures FREE_MAP_SECTOR !in Data(m) && FREE_MAP_SECTOR !in Data(t) && DIRECTORY_SECTOR !in Data(m)
            && DIRECTORY_SECTOR !in Data(t)
    ensures Distinct(Data(m)) && Distinct(Data(t))
    ensures forall s :: s in Data(m) ==> s !in Data(t)
  {
    hide Good;
    var x, y := Data(m), Data(t);
    RestDistinct(FREE_MAP_SECTOR, x);
    RestDistinct(DIRECTORY_SECTOR, y);
    var c, e := [FREE_MAP_SECTOR] + x, [DIRECTORY_SECTOR] + y;
    assert c[0] == FREE_MAP_SECTOR && e[0] == DIRECTORY_SECTOR;
    assert forall i :: 0 <= i < |x| ==> c[i + 1] == x[i];
    assert forall i :: 0 <= i < |y| ==> e[i + 1] == y[i];
  }

  lemma FormatClaims(v0: Volume, v1: Volume, v: Volume)
    requires Shaped(v0) && Shaped(v1) && Shaped(v)
    requires forall k :: 0 <= k < NUM_DIR_ENTRIES ==> !v.dir[k].inUse
    requires v0.dir == v1.dir == v.dir && Good(v.hdrs[MAP_FILE]) && Good(v.hdrs[DIR_FILE])
    requires v1.hdrs[MAP_FILE] == v.hdrs[MAP_FILE] && !WellShaped(v1.hdrs[DIR_FILE])
    requires !WellShaped(v0.hdrs[MAP_FILE]) && !WellShaped(v0.hdrs[DIR_FILE])
    ensures Claim(v, DIR_FILE) == [DIRECTORY_SECTOR] + Data(v.hdrs[DIR_FILE])
    ensures Claim(v1, MAP_FILE) == Claim(v, MAP_FILE) == [FREE_MAP_SECTOR] + Data(v.hdrs[MAP_FILE])
    ensures Claim(v1, DIR_FILE) == []
    ensures forall f :: 0 <= f < NUM_FILES ==> Claim(v0, f) == []
    ensures forall f :: FIRST_FILE <= f < NUM_FILES ==> Claim(v1, f) == Claim(v, f) == []
  {
    forall f | 0 <= f < NUM_FILES ensures Claim(v0, f) == [] {
      assert f < FIRST_FILE ==> f == MAP_FILE || f == DIR_FILE;
    }
    forall f | FIRST_FILE <= f < NUM_FILES ensures Claim(v1, f) == Claim(v, f) == [] {
      assert !InUse(v, f) && !InUse(v1, f);
    }
  }

  lemma RestDistinct(s: int, x: seq<int>)
    requires Distinct<int>([s] + x)
    ensures Distinct(x) && forall y :: y in x ==> y in [s] + x
  {
    assert forall i :: 0 <= i < |x| ==> ([s] + x)[i + 1] == x[i];
  }

  lemma HeldOnce(d: Image, k: nat, key: seq<byte>)
    requires Fsck(d) && k < NUM_DIR_ENTRIES && Holds(DirOn(d), k, key)
    ensures forall i :: 0 <= i < NUM_DIR_ENTRIES && Holds(DirOn(d), i, key) ==> i == k
  {
    hide DirOn, Key;
  }

  lemma FsckOwner(d: Image) returns (own: seq<Owner>)
    requires Fsck(d)
    ensures Mountable(d) && Consistent(View(d), own)
  {
    own := SoundOwner(View(d));
  }

  lemma AddedPlanned(d: Image, k: nat, t: seq<Entry>, h: Header, bits: seq<bool>, key: seq<byte>, sector: int32)
    requires Mountable(d) && k < NUM_DIR_ENTRIES && Added(DirOn(d), t, k, key, sector) && Absent(DirOn(d), key)
    requires Good(h) && Taken(BitsOn(d), bits, [sector] + Data(h))
    ensures Planned(d, k, t, h, bits) && t[k].sector == sector && 0 <= sector < DISK_NUM_SECTORS
            && Key(t[k].name) == key
  {
    hide Key, Absent, Good, Distinct, DirOn, BitsOn;
    assert ([sector] + Data(h))[0] == sector;
  }

  lemma CreateDone(d: Image, e: Image, own: seq<Owner>, k: nat, t: seq<Entry>, h: Header, bits: seq<bool>)
    requires Planned(d, k, t, h, bits) && Consistent(View(d), own) && Fsck(d)
    requires Rewritten(d, e, own, t, bits) && HeaderAt(e, t[k].sector) == h
    ensures HeaderAt(e, FREE_MAP_SECTOR) == HeaderAt(d, FREE_MAP_SECTOR)
            && HeaderAt(e, DIRECTORY_SECTOR) == HeaderAt(d, DIRECTORY_SECTOR)
    ensures Fsck(e) && FileCreated(d, e, Key(t[k].name), h.numBytes)
  {
    hide Key, FileBytes, Claim, Taken, Listing, Absent, MetaOnly, Good, Mountable, DirOn, BitsOn, HeaderAt, Fsck,
      Consistent, FileCreated, WithFile;
    Created(d, e, own, k, t, h, bits);
    CreatedEffect(d, e, k, t[k], h);
  }

  lemma CreatedEffect(d: Image, e: Image, k: nat, en: Entry, h: Header)
    requires Fsck(d) && Fsck(e) && k < NUM_DIR_ENTRIES && !DirOn(d)[k].inUse && en.inUse && Good(h)
    requires Absent(DirOn(d), Key(en.name)) && View(e) == WithFile(View(d), BitsOn(e), k, en, h)
    requires Files(e) == Files(d)[Key(en.name) := FileBytes(e, h)]
    requires Taken(BitsOn(d), BitsOn(e), Claim(View(e), FIRST_FILE + k))
    ensures FileCreated(d, e, Key(en.name), h.numBytes)
  {
    hide Key, FileBytes, Claim, Taken, Listing, Absent, DirOn, BitsOn, NamesDistinct, Partitioned, HandlesStay;
    FsckListed(d, Key(en.name));
    assert DirOn(e) == DirOn(d)[k := en];
    LookupOnly(DirOn(e), k);
    KeptHandles(d, e, k, {});
  }

  /** What Create needs: the name unused, a free directory entry, and sectors for header and data. */
  predicate Creatable(bits: seq<bool>, dir: seq<Entry>, key: seq<byte>, size: nat) {
    && Absent(dir, key)
    && (exists k :: 0 <= k < |dir| && !dir[k].inUse)
    && CountClear(bits) >= 1 + DivRoundUp(size, SECTOR_SIZE)
  }

  /** That is: one sector for the header, and room for the bytes in the others that are free. */
  lemma CreatableExactly(bits: seq<bool>, dir: seq<Entry>, key: seq<byte>, size: nat)
    ensures Creatable(bits, dir, key, size) <==>
            && (forall k :: 0 <= k < |dir| && dir[k].inUse ==> Key(dir[k].name) != key)
            && (exists k :: 0 <= k < |dir| && !dir[k].inUse)
            && CountClear(bits) >= 1 && (CountClear(bits) - 1) * 128 >= size
  {
    hide Key, CountClear, DivRoundUp;
    Enough(CountClear(bits) - 1, size);
    if Absent(dir, key) {
      forall k | 0 <= k < |dir| && dir[k].inUse ensures Key(dir[k].name) != key {
        assert !Holds(dir, k, key);
      }
    }
  }

  lemma NewNames(bits: seq<bool>, dir: seq<Entry>, key: seq<byte>, size: nat)
    ensures Creatable(bits, dir, key, size) ==> Absent(dir, key)
  {
  }

  lemma EntrySectors(d: Image)
    requires Fsck(d)
    ensures forall k :: 0 <= k < NUM_DIR_ENTRIES && DirOn(d)[k].inUse ==> 0 <= DirOn(d)[k].sector < DISK_NUM_SECTORS
  {
    hide DirOn, BitsOn, NamesDistinct, Partitioned;
    forall k | 0 <= k < NUM_DIR_ENTRIES && DirOn(d)[k].inUse ensures 0 <= DirOn(d)[k].sector < DISK_NUM_SECTORS {
      assert InUse(View(d), FIRST_FILE + k);
    }
  }

  lemma TakenMore(b0: seq<bool>, b2: seq<bool>, s: int, x: seq<int>)
    requires 0 <= s < |b0| && !b0[s] && Taken(b0[s := true], b2, x)
    ensures Taken(b0, b2, [s] + x)
  {
    var c := [s] + x;
    forall i, j | 0 <= i < j < |c| ensures c[i] != c[j] {
      assert c[j] == x[j - 1];
      assert i > 0 ==> c[i] == x[i - 1];
    }
    forall i | 0 <= i < |c| ensures 0 <= c[i] < |b0| && !b0[c[i]] {
      assert i > 0 ==> c[i] == x[i - 1];
    }
  }
}
