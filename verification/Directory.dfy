// Directory: the table of <file name, header sector> pairs, stored as an ordinary file.
module Directories {
  import opened Collections
  import opened Codec
  import opened HeaderValue
  import opened OpenFile

  const FILE_NAME_MAX_LEN := 9
  const NUM_DIR_ENTRIES := 10
  const ENTRY_SIZE := 20
  const DIRECTORY_FILE_SIZE := ENTRY_SIZE * NUM_DIR_ENTRIES

  datatype DirectoryEntry = DirectoryEntry(inUse: bool, sector: int32, name: seq<byte>)

  type Entry = e: DirectoryEntry | |e.name| == FILE_NAME_MAX_LEN + 1
    witness DirectoryEntry(false, 0, seq(FILE_NAME_MAX_LEN + 1, i => 0 as byte))

  // ---- C strings ------------------------------------------------------------------------------

  /** The characters of `s` up to its terminator, `n` at most; running off `s` ends it too. */
  function CPrefix(s: seq<byte>, n: nat): (k: seq<byte>)
    ensures |k| <= n && 0 !in k
  {
    if n == 0 || s == [] || s[0] == 0 then [] else [s[0]] + CPrefix(s[1..], n - 1)
  }

  /** The name a file is really known by. */
  function Key(name: seq<byte>): seq<byte> {
    CPrefix(name, FILE_NAME_MAX_LEN)
  }

  /** Nine characters of it, or fewer if it ends before. */
  lemma KeyIs(name: seq<byte>)
    ensures var k := |Key(name)|;
      && k <= 9 && k <= |name| && Key(name) == name[..k] && 0 !in name[..k]
      && (k == 9 || k == |name| || name[k] == 0)
  {
    PrefixIs(name, FILE_NAME_MAX_LEN);
  }

  lemma {:induction false} PrefixIs(s: seq<byte>, n: nat)
    ensures var k := |CPrefix(s, n)|;
      k <= |s| && CPrefix(s, n) == s[..k] && (k == n || k == |s| || s[k] == 0)
  {
    if n > 0 && s != [] && s[0] != 0 {
      PrefixIs(s[1..], n - 1);
      var k := |CPrefix(s, n)|;
      assert s[1..][..k - 1] == s[1..k];
      assert s[..k] == [s[0]] + s[1..k];
    }
  }

  /** `!strncmp(a, b, n)`. */
  predicate StrnEqual(a: seq<byte>, b: seq<byte>, n: nat) {
    if n == 0 then true
    else
      var x := if a == [] then 0 else a[0];
      var y := if b == [] then 0 else b[0];
      x == y && (x == 0 || StrnEqual(a[1..], b[1..], n - 1))
  }

  lemma {:induction false} StrnEqualKeys(a: seq<byte>, b: seq<byte>, n: nat)
    ensures StrnEqual(a, b, n) <==> CPrefix(a, n) == CPrefix(b, n)
  {
    if n > 0 && a != [] && b != [] && a[0] == b[0] != 0 {
      StrnEqualKeys(a[1..], b[1..], n - 1);
      assert CPrefix(a, n)[1..] == CPrefix(a[1..], n - 1);
      assert CPrefix(b, n)[1..] == CPrefix(b[1..], n - 1);
    } else if n > 0 && a != [] && b != [] && a[0] != 0 && b[0] != 0 {
      assert CPrefix(a, n)[0] == a[0] && CPrefix(b, n)[0] == b[0];
    }
  }

  /** The `n` characters strncpy stores: the source, then NULs. */
  function Strncpy(src: seq<byte>, n: nat): (s: seq<byte>)
    ensures |s| == n
    decreases n
  {
    if n == 0 then []
    else if src == [] || src[0] == 0 then [0] + Strncpy([], n - 1)
    else [src[0]] + Strncpy(src[1..], n - 1)
  }

  lemma {:induction false} StrncpyKey(src: seq<byte>, rest: seq<byte>, n: nat)
    ensures CPrefix(Strncpy(src, n) + rest, n) == CPrefix(src, n)
  {
    var s := Strncpy(src, n) + rest;
    if n > 0 && src != [] && src[0] != 0 {
      StrncpyKey(src[1..], rest, n - 1);
      assert s[1..] == Strncpy(src[1..], n - 1) + rest;
    }
  }

  // ---- the table as bytes -----------------------------------------------------------------------

  function EncodeEntry(e: Entry): (b: seq<byte>)
    ensures |b| == ENTRY_SIZE
  {
    [if e.inUse then 1 else 0, 0, 0, 0] + EncodeInt(e.sector) + e.name + [0, 0]
  }

  function DecodeEntry(b: seq<byte>): Entry
    requires |b| == ENTRY_SIZE
  {
    DirectoryEntry(b[0] != 0, DecodeInt(b[4..8]), b[8..18])
  }

  lemma EntryRoundTrip(e: Entry)
    ensures DecodeEntry(EncodeEntry(e)) == e
  {
    var b := EncodeEntry(e);
    IntRoundTrip(e.sector);
    assert b[4..8] == EncodeInt(e.sector);
    assert b[8..18] == e.name;
  }

  function EncodeTable(t: seq<Entry>): (b: seq<byte>)
    ensures |b| == ENTRY_SIZE * |t|
  {
    if t == [] then [] else EncodeEntry(t[0]) + EncodeTable(t[1..])
  }

  function DecodeTable(b: seq<byte>): (t: seq<Entry>)
    requires |b| % ENTRY_SIZE == 0
    ensures |t| == |b| / ENTRY_SIZE
  {
    if b == [] then [] else [DecodeEntry(b[..ENTRY_SIZE])] + DecodeTable(b[ENTRY_SIZE..])
  }

  lemma {:induction false} TableAt(b: seq<byte>, i: nat)
    requires |b| % 20 == 0 && i < |b| / 20
    ensures 20 * i + 20 <= |b| && DecodeTable(b)[i] == DecodeEntry(b[20 * i..20 * i + 20])
  {
    if i > 0 {
      TableAt(b[20..], i - 1);
      assert b[20..][20 * (i - 1)..20 * (i - 1) + 20] == b[20 * i..20 * i + 20];
    }
  }

  /** How entry `i` of a table lies in its twenty bytes: in use or not, the sector, the name. */
  lemma EntryLayout(b: seq<byte>, i: nat)
    requires |b| % 20 == 0 && i < |b| / 20
    ensures var e, p := DecodeTable(b)[i], 20 * i;
      (e.inUse <==> b[p] != 0) && Unsigned(e.sector) == WordAt(b, p + 4) && e.name == b[p + 8..p + 18]
  {
    TableAt(b, i);
    hide DecodeTable;
    CutEntry(b, 20 * i);
  }

  lemma SliceOf(b: seq<byte>, p: nat, i: nat, j: nat)
    requires p + 20 <= |b| && i <= j <= 20
    ensures b[p..p + 20][i..j] == b[p + i..p + j]
  {
    var c, d := b[p..p + 20][i..j], b[p + i..p + j];
    forall k | 0 <= k < j - i ensures c[k] == d[k] {
      assert c[k] == b[p..p + 20][i + k] == b[p + (i + k)];
    }
  }

  lemma CutEntry(b: seq<byte>, p: nat)
    requires p + 20 <= |b|
    ensures var e := DecodeEntry(b[p..p + 20]);
      (e.inUse <==> b[p] != 0) && Unsigned(e.sector) == WordAt(b, p + 4) && e.name == b[p + 8..p + 18]
  {
    IntAt(b, p + 4);
    SliceOf(b, p, 4, 8);
    SliceOf(b, p, 8, 18);
    hide DecodeInt, Unsigned, WordAt;
  }

  lemma {:induction false} TableRoundTrip(t: seq<Entry>)
    ensures DecodeTable(EncodeTable(t)) == t
  {
    if t != [] {
      EntryRoundTrip(t[0]);
      TableRoundTrip(t[1..]);
      assert EncodeTable(t)[..ENTRY_SIZE] == EncodeEntry(t[0]);
      assert EncodeTable(t)[ENTRY_SIZE..] == EncodeTable(t[1..]);
    }
  }

  /** Entry `i` holds the file called `key`. */
  predicate Holds(t: seq<Entry>, i: nat, key: seq<byte>)
    requires i < |t|
  {
    t[i].inUse && Key(t[i].name) == key
  }

  predicate Absent(t: seq<Entry>, key: seq<byte>) {
    forall i :: 0 <= i < |t| ==> !Holds(t, i, key)
  }

  class Directory {
    const table: array<Entry>

    ghost predicate Valid() {
      table.Length == NUM_DIR_ENTRIES
    }

    /** Only `inUse` is initialised. */
    constructor ()
      ensures Valid() && fresh(table)
      ensures forall i :: 0 <= i < NUM_DIR_ENTRIES ==> !table[i].inUse
    {
      table := new Entry[NUM_DIR_ENTRIES];
      new;
      var i := 0;
      while i < NUM_DIR_ENTRIES
        invariant 0 <= i <= NUM_DIR_ENTRIES
        invariant forall j :: 0 <= j < i ==> !table[j].inUse
      {
        table[i] := table[i].(inUse := false);
        i := i + 1;
      }
    }

    method FindIndex(name: seq<byte>) returns (r: int)
      requires Valid()
      ensures r == -1 ==> Absent(table[..], Key(name))
      ensures r != -1 ==> 0 <= r < NUM_DIR_ENTRIES && Holds(table[..], r, Key(name))
      ensures forall j :: 0 <= j < r ==> !Holds(table[..], j, Key(name))
    {
      var i := 0;
      while i < NUM_DIR_ENTRIES
        invariant 0 <= i <= NUM_DIR_ENTRIES
        invariant forall j :: 0 <= j < i ==> !Holds(table[..], j, Key(name))
      {
        StrnEqualKeys(table[i].name, name, FILE_NAME_MAX_LEN);
        if table[i].inUse && StrnEqual(table[i].name, name, FILE_NAME_MAX_LEN) {
          return i;
        }
        i := i + 1;
      }
      r := -1;
    }

    method Find(name: seq<byte>) returns (sector: int)
      requires Valid()
      ensures Absent(table[..], Key(name)) ==> sector == -1
      ensures !Absent(table[..], Key(name)) ==>
                exists i :: 0 <= i < NUM_DIR_ENTRIES && Holds(table[..], i, Key(name)) && table[i].sector == sector
                            && forall j :: 0 <= j < i ==> !Holds(table[..], j, Key(name))
    {
      var i := FindIndex(name);
      if i != -1 {
        return table[i].sector;
      }
      return -1;
    }

    method Add(name: seq<byte>, newSector: int32) returns (ok: bool)
      requires Valid()
      modifies table
      ensures ok <==> Absent(old(table[..]), Key(name)) && exists i :: 0 <= i < NUM_DIR_ENTRIES && !old(table[i]).inUse
      ensures !ok ==> table[..] == old(table[..])
      ensures ok ==> exists i :: 0 <= i < NUM_DIR_ENTRIES && Added(old(table[..]), table[..], i, Key(name), newSector)
    {
      var found := FindIndex(name);
      if found != -1 {
        return false;
      }
      var i := 0;
      while i < NUM_DIR_ENTRIES
        invariant 0 <= i <= NUM_DIR_ENTRIES
        invariant table[..] == old(table[..])
        invariant forall j :: 0 <= j < i ==> table[j].inUse
      {
        if !table[i].inUse {
          StrncpyKey(name, table[i].name[FILE_NAME_MAX_LEN..], FILE_NAME_MAX_LEN);
          table[i] := DirectoryEntry(true, newSector,
            Strncpy(name, FILE_NAME_MAX_LEN) + table[i].name[FILE_NAME_MAX_LEN..]);
          assert Added(old(table[..]), table[..], i, Key(name), newSector);
          return true;
        }
        i := i + 1;
      }
      return false;
    }

    method Remove(name: seq<byte>) returns (ok: bool)
      requires Valid()
      modifies table
      ensures ok <==> !Absent(old(table[..]), Key(name))
      ensures !ok ==> table[..] == old(table[..])
      ensures ok ==> exists i :: 0 <= i < NUM_DIR_ENTRIES && Holds(old(table[..]), i, Key(name))
                                 && (forall j :: 0 <= j < i ==> !Holds(old(table[..]), j, Key(name)))
                                 && table[..] == old(table[..])[i := old(table[i]).(inUse := false)]
    {
      var i := FindIndex(name);
      if i == -1 {
        return false;
      }
      table[i] := table[i].(inUse := false);
      return true;
    }

    method FetchFrom(file: OpenNaFile)
      requires Valid() && file.Valid() && table !in file.Repr()
      modifies table
      ensures var g := Granted(file.hdr.numBytes, DIRECTORY_FILE_SIZE, 0);
              table[..] == DecodeTable(file.Bytes()[..g] + EncodeTable(old(table[..]))[g..])
      ensures file.hdr.numBytes == DIRECTORY_FILE_SIZE ==> table[..] == DecodeTable(file.Bytes())
    {
      hide EncodeTable, DecodeTable, FileBytes, Raw, Distinct;
      var bytes := EncodeTable(table[..]);
      var buf := new byte[DIRECTORY_FILE_SIZE](i requires 0 <= i < DIRECTORY_FILE_SIZE => bytes[i]);
      assert buf[..] == bytes;
      var g := file.ReadAt(buf, 0, DIRECTORY_FILE_SIZE, 0);
      assert buf[..] == buf[0..0 + g] + buf[g..];
      assert buf[g..] == bytes[g..];
      ghost var got := buf[..];
      assert got == file.Bytes()[..g] + bytes[g..];
      assert file.hdr.numBytes == DIRECTORY_FILE_SIZE ==> got == file.Bytes();
      var entries := DecodeTable(buf[..]);
      forall i | 0 <= i < NUM_DIR_ENTRIES {
        table[i] := entries[i];
      }
      assert table[..] == entries;
    }

    method WriteBack(file: OpenNaFile)
      requires Valid() && file.Valid() && table !in file.Repr()
      modifies file.disk.sectors
      ensures table[..] == old(table[..])
      ensures file.Valid() && file.hdr.Value() == old(file.hdr.Value())
      ensures var g := Granted(file.hdr.numBytes, DIRECTORY_FILE_SIZE, 0);
              file.Bytes() == EncodeTable(table[..])[..g] + old(file.Bytes())[g..]
      ensures file.hdr.numBytes == DIRECTORY_FILE_SIZE ==> file.Bytes() == EncodeTable(table[..])
      ensures OnlyData(old(file.disk.Contents()), file.disk.Contents(), file.hdr.Value())
    {
      hide EncodeTable, FileBytes, Raw, Distinct, Splice, OnlyData;
      var bytes := EncodeTable(table[..]);
      var buf := new byte[DIRECTORY_FILE_SIZE](i requires 0 <= i < DIRECTORY_FILE_SIZE => bytes[i]);
      assert buf[..] == bytes;
      ghost var was := file.Bytes();
      var g := file.WriteAt(buf, DIRECTORY_FILE_SIZE, 0);
      if g > 0 {
        SpliceFront(was, buf[..g]);
        assert buf[..g] == bytes[..g];
      }
    }
  }

  /** Table `u` is `t` with free entry `i` now holding `key` at `sector`. */
  ghost predicate Added(t: seq<Entry>, u: seq<Entry>, i: nat, key: seq<byte>, sector: int32) {
    && i < |t| && !t[i].inUse
    && (forall j :: 0 <= j < i ==> t[j].inUse)
    && |u| == |t| && u == t[i := u[i]]
    && Holds(u, i, key) && u[i].sector == sector
  }
}
