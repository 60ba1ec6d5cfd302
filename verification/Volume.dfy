// The whole disk as one structure: what a file system checker would demand of it.
module Volumes {
  import opened Collections
  import opened SectorDisk
  import opened HeaderValue
  import opened FileHeaders
  import opened Directories

  const FREE_MAP_SECTOR := 0
  const DIRECTORY_SECTOR := 1
  const FREE_MAP_FILE_SIZE := DISK_NUM_SECTORS / 8

  // Files are numbered: the free map, the directory, then one per directory entry.
  const MAP_FILE := 0
  const DIR_FILE := 1
  const FIRST_FILE := 2
  const NUM_FILES := FIRST_FILE + NUM_DIR_ENTRIES

  /** What the disk says: the free map's bits, the directory, and the header of each file. */
  datatype Volume = Volume(bits: seq<bool>, dir: seq<Entry>, hdrs: seq<Header>)

  predicate Shaped(v: Volume) {
    |v.bits| == DISK_NUM_SECTORS && |v.dir| == NUM_DIR_ENTRIES && |v.hdrs| == NUM_FILES
  }

  predicate InUse(v: Volume, f: nat)
    requires Shaped(v) && f < NUM_FILES
  {
    f < FIRST_FILE || v.dir[f - FIRST_FILE].inUse
  }

  function HdrSector(v: Volume, f: nat): int
    requires Shaped(v) && f < NUM_FILES
  {
    if f < FIRST_FILE then f else v.dir[f - FIRST_FILE].sector
  }

  /** The sectors file `f` occupies: its header's, then its data's. */
  function Claim(v: Volume, f: nat): (s: seq<int>)
    requires Shaped(v) && f < NUM_FILES
  {
    if InUse(v, f) && Good(v.hdrs[f]) then [HdrSector(v, f)] + Data(v.hdrs[f]) else []
  }

  /** File `f` claims a sector at position `i`. */
  predicate Claims(v: Volume, f: int, i: int)
    requires Shaped(v)
  {
    0 <= f < NUM_FILES && 0 <= i < |Claim(v, f)|
  }

  predicate FilesGood(v: Volume)
    requires Shaped(v)
  {
    && v.hdrs[MAP_FILE].numBytes == FREE_MAP_FILE_SIZE
    && v.hdrs[DIR_FILE].numBytes == DIRECTORY_FILE_SIZE
    && forall f :: 0 <= f < NUM_FILES && InUse(v, f) ==> Good(v.hdrs[f]) && 0 <= HdrSector(v, f) < DISK_NUM_SECTORS
  }

  predicate NamesDistinct(dir: seq<Entry>) {
    forall i, j :: 0 <= i < j < |dir| && dir[i].inUse && dir[j].inUse ==> Key(dir[i].name) != Key(dir[j].name)
  }

  /** Who a sector belongs to: position `at` of the claim of `file`. */
  datatype Owner = Free | Own(file: nat, at: nat)

  /** `own` assigns every sector its one owner, and the free map marks exactly the owned sectors. */
  ghost predicate Partitioned(v: Volume, own: seq<Owner>)
    requires Shaped(v)
  {
    && |own| == DISK_NUM_SECTORS
    && (forall f, i :: Claims(v, f, i) ==>
          0 <= Claim(v, f)[i] < DISK_NUM_SECTORS && own[Claim(v, f)[i]] == Own(f, i))
    && (forall s :: 0 <= s < DISK_NUM_SECTORS ==> (v.bits[s] <==> own[s] != Free))
    && (forall s :: 0 <= s < DISK_NUM_SECTORS && own[s] != Free ==>
          own[s].file < NUM_FILES && own[s].at < |Claim(v, own[s].file)| && Claim(v, own[s].file)[own[s].at] == s)
  }

  ghost predicate Consistent(v: Volume, own: seq<Owner>) {
    Shaped(v) && FilesGood(v) && NamesDistinct(v.dir) && Partitioned(v, own)
  }

  ghost predicate Sound(v: Volume) {
    Shaped(v) && FilesGood(v) && NamesDistinct(v.dir) && exists own :: Partitioned(v, own)
  }

  lemma SoundOwner(v: Volume) returns (own: seq<Owner>)
    requires Sound(v)
    ensures Consistent(v, own)
  {
    own :| Partitioned(v, own);
  }

  /** What soundness means, without owners: the marked sectors are exactly the claimed ones, and no
      sector is claimed twice, be it by two files or twice by one. */
  lemma SoundExactly(v: Volume)
    requires Sound(v)
    ensures forall s :: 0 <= s < DISK_NUM_SECTORS ==>
            (v.bits[s] <==> exists f :: 0 <= f < NUM_FILES && s in Claim(v, f))
    ensures forall f, g, i, j | Claims(v, f, i) && Claims(v, g, j)
            && Claim(v, f)[i] == Claim(v, g)[j] :: f == g && i == j
  {
    var own := SoundOwner(v);
    forall s | 0 <= s < DISK_NUM_SECTORS ensures v.bits[s] <==> exists f :: 0 <= f < NUM_FILES && s in Claim(v, f) {
      if v.bits[s] {
        assert s in Claim(v, own[s].file);
      }
    }
    forall f, g, i, j | Claims(v, f, i) && Claims(v, g, j) && Claim(v, f)[i] == Claim(v, g)[j]
      ensures f == g && i == j
    {
    }
  }

  lemma OwnData(v: Volume, own: seq<Owner>, f: nat)
    requires Consistent(v, own) && f < NUM_FILES && InUse(v, f)
    ensures forall i :: 0 <= i < v.hdrs[f].numSectors ==> own[v.hdrs[f].dataSectors[i]] == Own(f, i + 1)
    ensures own[HdrSector(v, f)] == Own(f, 0)
    ensures Distinct(Data(v.hdrs[f]))
  {
    var h := v.hdrs[f];
    assert Claims(v, f, 0) && Claim(v, f)[0] == HdrSector(v, f);
    forall i | 0 <= i < h.numSectors ensures own[h.dataSectors[i]] == Own(f, i + 1) && Data(h)[i] == h.dataSectors[i] {
      assert Claims(v, f, i + 1) && Claim(v, f)[i + 1] == Data(h)[i] == h.dataSectors[i];
    }
  }

  // ---- the three changes of the file system, on volumes --------------------------------------------

  /** The volume with a new file in directory entry `k`. */
  function WithFile(v: Volume, bits: seq<bool>, k: nat, e: Entry, h: Header): Volume
    requires Shaped(v) && k < NUM_DIR_ENTRIES
  {
    Volume(bits, v.dir[k := e], v.hdrs[FIRST_FILE + k := h])
  }

  function WithoutFile(v: Volume, bits: seq<bool>, k: nat): Volume
    requires Shaped(v) && k < NUM_DIR_ENTRIES
  {
    Volume(bits, v.dir[k := v.dir[k].(inUse := false)], v.hdrs[FIRST_FILE + k := v.hdrs[MAP_FILE]])
  }

  function IndexIn(s: seq<int>, x: int): (i: nat)
    requires x in s
    ensures i < |s| && s[i] == x
  {
    if s[0] == x then 0 else 1 + IndexIn(s[1..], x)
  }

  ghost function Claimed(own: seq<Owner>, s: seq<int>, f: nat): (r: seq<Owner>)
    ensures |r| == |own|
    ensures forall x :: 0 <= x < |own| ==> r[x] == if x in s then Own(f, IndexIn(s, x)) else own[x]
  {
    seq(|own|, x requires 0 <= x < |own| => if x in s then Own(f, IndexIn(s, x)) else own[x])
  }

  ghost function Released(own: seq<Owner>, f: nat): (r: seq<Owner>)
    ensures |r| == |own|
    ensures forall x :: 0 <= x < |own| ==> r[x] == if own[x].Own? && own[x].file == f then Free else own[x]
  {
    seq(|own|, x requires 0 <= x < |own| => if own[x].Own? && own[x].file == f then Free else own[x])
  }

  lemma AddKeepsNames(dir: seq<Entry>, k: nat, e: Entry)
    requires NamesDistinct(dir) && k < |dir| && !dir[k].inUse && Absent(dir, Key(e.name))
    ensures NamesDistinct(dir[k := e])
  {
    var n := dir[k := e];
    forall i, j | 0 <= i < j < |n| && n[i].inUse && n[j].inUse ensures Key(n[i].name) != Key(n[j].name) {
      assert i != k ==> !Holds(dir, i, Key(e.name));
      assert j != k ==> !Holds(dir, j, Key(e.name));
    }
  }

  lemma AddClaims(v: Volume, bits: seq<bool>, k: nat, e: Entry, h: Header)
    requires Shaped(v) && |bits| == DISK_NUM_SECTORS && k < NUM_DIR_ENTRIES && !v.dir[k].inUse && e.inUse && Good(h)
    ensures Claim(v, FIRST_FILE + k) == []
    ensures Claim(WithFile(v, bits, k, e, h), FIRST_FILE + k) == [e.sector] + Data(h)
    ensures forall f :: 0 <= f < NUM_FILES && f != FIRST_FILE + k ==>
            Claim(WithFile(v, bits, k, e, h), f) == Claim(v, f)
  {
  }

  lemma AddKeepsPartition(v: Volume, own: seq<Owner>, n: Volume, g: nat, c: seq<int>)
    requires Shaped(v) && Shaped(n) && Partitioned(v, own) && g < NUM_FILES
    requires Claim(v, g) == [] && Claim(n, g) == c && Taken(v.bits, n.bits, c)
    requires forall f :: 0 <= f < NUM_FILES && f != g ==> Claim(n, f) == Claim(v, f)
    ensures Partitioned(n, Claimed(own, c, g))
  {
    hide Claim;
    var o := Claimed(own, c, g);
    forall f, i | Claims(n, f, i)
      ensures 0 <= Claim(n, f)[i] < DISK_NUM_SECTORS && o[Claim(n, f)[i]] == Own(f, i)
    {
      if f == g {
        var j := IndexIn(c, c[i]);
        assert c[j] == c[i];
      } else {
        assert Claims(v, f, i);
      }
    }
    forall s | 0 <= s < DISK_NUM_SECTORS && o[s] != Free
      ensures o[s].file < NUM_FILES && o[s].at < |Claim(n, o[s].file)| && Claim(n, o[s].file)[o[s].at] == s
    {
      assert own[s] != Free ==> own[s].file != g;
    }
  }

  /** A new file made of sectors that were clear keeps the volume sound. */
  lemma AddKeepsSound(v: Volume, own: seq<Owner>, bits: seq<bool>, k: nat, e: Entry, h: Header)
    requires Consistent(v, own) && k < NUM_DIR_ENTRIES && !v.dir[k].inUse
    requires e.inUse && Absent(v.dir, Key(e.name)) && Good(h)
    requires Taken(v.bits, bits, [e.sector] + Data(h))
    ensures Consistent(WithFile(v, bits, k, e, h), Claimed(own, [e.sector] + Data(h), FIRST_FILE + k))
  {
    var n, c := WithFile(v, bits, k, e, h), [e.sector] + Data(h);
    assert FilesGood(n) by {
      assert c[0] == e.sector;
    }
    hide Claim, NamesDistinct, Partitioned, Claimed, Key, FilesGood, Taken, Good, Data;
    AddKeepsNames(v.dir, k, e);
    AddClaims(v, bits, k, e, h);
    AddKeepsPartition(v, own, n, FIRST_FILE + k, c);
  }

  lemma RemoveKeepsFiles(v: Volume, bits: seq<bool>, k: nat)
    requires Shaped(v) && |bits| == DISK_NUM_SECTORS && FilesGood(v) && NamesDistinct(v.dir) && k < NUM_DIR_ENTRIES
    ensures FilesGood(WithoutFile(v, bits, k)) && NamesDistinct(WithoutFile(v, bits, k).dir)
  {
    hide Key, Good;
  }

  lemma RemoveClaims(v: Volume, bits: seq<bool>, k: nat)
    requires Shaped(v) && |bits| == DISK_NUM_SECTORS && k < NUM_DIR_ENTRIES
    ensures Claim(WithoutFile(v, bits, k), FIRST_FILE + k) == []
    ensures forall f :: 0 <= f < NUM_FILES && f != FIRST_FILE + k ==> Claim(WithoutFile(v, bits, k), f) == Claim(v, f)
  {
  }

  lemma RemoveKeepsPartition(v: Volume, own: seq<Owner>, n: Volume, g: nat)
    requires Shaped(v) && Shaped(n) && Partitioned(v, own) && g < NUM_FILES
    requires Claim(n, g) == [] && Taken(n.bits, v.bits, Claim(v, g))
    requires forall f :: 0 <= f < NUM_FILES && f != g ==> Claim(n, f) == Claim(v, f)
    ensures Partitioned(n, Released(own, g))
  {
    hide Claim;
    var o := Released(own, g);
    forall s | 0 <= s < DISK_NUM_SECTORS ensures n.bits[s] <==> o[s] != Free {
      if own[s] != Free && own[s].file == g {
        assert s in Claim(v, g);
      }
    }
    forall f, i | Claims(n, f, i) ensures 0 <= Claim(n, f)[i] < DISK_NUM_SECTORS && o[Claim(n, f)[i]] == Own(f, i) {
      assert Claims(v, f, i);
    }
  }

  /** Removing a file and clearing exactly its claim keeps the volume sound. */
  lemma RemoveKeepsSound(v: Volume, own: seq<Owner>, bits: seq<bool>, k: nat)
    requires Consistent(v, own) && k < NUM_DIR_ENTRIES && v.dir[k].inUse
    requires Taken(bits, v.bits, Claim(v, FIRST_FILE + k))
    ensures Consistent(WithoutFile(v, bits, k), Released(own, FIRST_FILE + k))
  {
    var n, g := WithoutFile(v, bits, k), FIRST_FILE + k;
    assert |bits| == |v.bits| == DISK_NUM_SECTORS && Shaped(n);
    hide Claim, NamesDistinct, Partitioned, Released, Key, FilesGood, Taken, Good, Data;
    RemoveKeepsFiles(v, bits, k);
    RemoveClaims(v, bits, k);
    RemoveKeepsPartition(v, own, n, g);
  }
}
