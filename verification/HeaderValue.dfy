// FileHeader values: the i-node, exactly one sector wide.
module HeaderValue {
  import opened Collections
  import opened Codec
  import opened SectorDisk

  const NUM_DIRECT := (SECTOR_SIZE - 8) / 4
  const MAX_FILE_SIZE := NUM_DIRECT * SECTOR_SIZE

  datatype Header = Header(numBytes: int32, numSectors: int32, dataSectors: seq<int32>)

  function DivRoundUp(n: nat, s: nat): nat
    requires s > 0
  {
    if n % s > 0 then n / s + 1 else n / s
  }

  /** As many pieces of `s` as hold `n`, and no piece more. */
  lemma RoundsUp(n: nat, s: nat)
    requires s > 0
    ensures DivRoundUp(n, s) * s - s < n <= DivRoundUp(n, s) * s
  {
    assert n == n / s * s + n % s;
  }

  /** So many pieces are enough exactly if they have room. */
  lemma Enough(c: int, n: nat)
    ensures c >= DivRoundUp(n, SECTOR_SIZE) <==> c * 128 >= n
  {
    RoundsUp(n, SECTOR_SIZE);
    hide DivRoundUp;
  }

  predicate WellShaped(h: Header) {
    |h.dataSectors| == NUM_DIRECT
  }

  function EncodeHeader(h: Header): (s: Sector)
    requires WellShaped(h)
  {
    EncodeInt(h.numBytes) + EncodeInt(h.numSectors)
      + Flat(seq(NUM_DIRECT, i requires 0 <= i < NUM_DIRECT => EncodeInt(h.dataSectors[i])), 4)
  }

  function DecodeHeader(s: Sector): (h: Header)
    ensures WellShaped(h)
  {
    Header(DecodeInt(s[0..4]), DecodeInt(s[4..8]),
      seq(NUM_DIRECT, i requires 0 <= i < NUM_DIRECT => DecodeInt(Cut(s[8..], 4, i))))
  }

  lemma HeaderRoundTrip(h: Header)
    requires WellShaped(h)
    ensures DecodeHeader(EncodeHeader(h)) == h
  {
    var ints := seq(NUM_DIRECT, i requires 0 <= i < NUM_DIRECT => EncodeInt(h.dataSectors[i]));
    var s := EncodeHeader(h);
    assert s[0..4] == EncodeInt(h.numBytes);
    assert s[4..8] == EncodeInt(h.numSectors);
    assert s[8..] == Flat(ints, 4);
    IntRoundTrip(h.numBytes);
    IntRoundTrip(h.numSectors);
    forall i | 0 <= i < NUM_DIRECT ensures DecodeHeader(s).dataSectors[i] == h.dataSectors[i] {
      CutFlat(ints, 4, i);
      IntRoundTrip(h.dataSectors[i]);
    }
  }

  /** How a header lies in its sector: numBytes, numSectors, then the 30 sector numbers. */
  lemma HeaderLayout(s: Sector, i: nat)
    requires i < 30
    ensures var h := DecodeHeader(s);
      && Unsigned(h.numBytes) == WordAt(s, 0) && Unsigned(h.numSectors) == WordAt(s, 4)
      && |h.dataSectors| == 30 && Unsigned(h.dataSectors[i]) == WordAt(s, 8 + 4 * i)
  {
    IntAt(s, 0);
    IntAt(s, 4);
    IntAt(s, 8 + 4 * i);
    assert Cut(s[8..], 4, i) == s[8 + 4 * i..8 + 4 * i + 4];
    hide DecodeInt, Unsigned, WordAt;
  }

  /** A header a live file may have: sizes agree and every data sector is on the disk. */
  predicate Good(h: Header) {
    && WellShaped(h)
    && 0 <= h.numBytes <= MAX_FILE_SIZE
    && h.numSectors == DivRoundUp(h.numBytes, SECTOR_SIZE)
    && forall i :: 0 <= i < h.numSectors ==> 0 <= h.dataSectors[i] < DISK_NUM_SECTORS
  }

  function Data(h: Header): (s: seq<int32>)
    requires Good(h)
    ensures |s| == h.numSectors
  {
    h.dataSectors[..h.numSectors]
  }

  /** Byte `p` of the file with header `h` on disk `d`. */
  function ByteAt(d: Image, h: Header, p: nat): byte
    requires Good(h) && p < h.numBytes
  {
    d[h.dataSectors[p / SECTOR_SIZE]][p % SECTOR_SIZE]
  }

  /** Data sectors `a` up to `b` of the file, whole, one after the other. */
  function Raw(d: Image, h: Header, a: nat, b: nat): (s: seq<byte>)
    requires Good(h) && a <= b <= h.numSectors
    ensures |s| == (b - a) * SECTOR_SIZE
    decreases b
  {
    if a == b then [] else Raw(d, h, a, b - 1) + d[h.dataSectors[b - 1]]
  }

  lemma {:induction false} RawAt(d: Image, h: Header, a: nat, b: nat, p: nat)
    requires Good(h) && a <= b <= h.numSectors
    requires a * SECTOR_SIZE <= p < b * SECTOR_SIZE && p < h.numBytes
    ensures Raw(d, h, a, b)[p - a * SECTOR_SIZE] == ByteAt(d, h, p)
    decreases b
  {
    if p < (b - 1) * SECTOR_SIZE {
      RawAt(d, h, a, b - 1, p);
    } else {
      assert p / SECTOR_SIZE == b - 1;
    }
  }

  /** The contents of the file with header `h` on disk `d`. */
  function FileBytes(d: Image, h: Header): (s: seq<byte>)
    requires Good(h)
    ensures |s| == h.numBytes
  {
    Raw(d, h, 0, h.numSectors)[..h.numBytes]
  }

  /** Byte `p` of a file is byte `p % 128` of its data sector number `p / 128`. */
  lemma FileBytesAt(d: Image, h: Header, p: nat)
    requires Good(h) && p < h.numBytes
    ensures p / 128 < h.numSectors && FileBytes(d, h)[p] == d[h.dataSectors[p / 128]][p % 128]
  {
    RawAt(d, h, 0, h.numSectors, p);
  }

  /** What ReadAt copies out of the sectors it read is exactly the requested slice. */
  lemma RawSlice(d: Image, h: Header, a: nat, b: nat, p: nat, n: nat)
    requires Good(h) && a <= b <= h.numSectors
    requires a * SECTOR_SIZE <= p && p + n <= b * SECTOR_SIZE && p + n <= h.numBytes
    ensures Raw(d, h, a, b)[p - a * SECTOR_SIZE..p - a * SECTOR_SIZE + n] == FileBytes(d, h)[p..p + n]
  {
    var raw := Raw(d, h, a, b)[p - a * SECTOR_SIZE..p - a * SECTOR_SIZE + n];
    var slice := FileBytes(d, h)[p..p + n];
    forall k | 0 <= k < n ensures raw[k] == slice[k] {
      RawAt(d, h, a, b, p + k);
      FileBytesAt(d, h, p + k);
    }
  }

  /** Only the file's own data sectors matter to its contents. */
  lemma FileBytesFrame(d: Image, e: Image, h: Header)
    requires Good(h)
    requires forall i :: 0 <= i < h.numSectors ==> d[h.dataSectors[i]] == e[h.dataSectors[i]]
    ensures FileBytes(d, h) == FileBytes(e, h)
  {
    forall p | 0 <= p < h.numBytes ensures FileBytes(d, h)[p] == FileBytes(e, h)[p] {
      FileBytesAt(d, h, p);
      FileBytesAt(e, h, p);
    }
  }

  /** `n` bytes of `src` laid over `base` at `pos`. */
  function Splice<T>(base: seq<T>, pos: nat, src: seq<T>): (r: seq<T>)
    requires pos + |src| <= |base|
    ensures |r| == |base|
  {
    base[..pos] + src + base[pos + |src|..]
  }

  lemma SpliceFront<T>(base: seq<T>, src: seq<T>)
    requires |src| <= |base|
    ensures Splice(base, 0, src) == src + base[|src|..]
  {
  }

  lemma SpliceAt<T>(base: seq<T>, pos: nat, src: seq<T>, p: nat)
    requires pos + |src| <= |base| && p < |base|
    ensures Splice(base, pos, src)[p] == if pos <= p < pos + |src| then src[p - pos] else base[p]
  {
  }

  function Min(a: int, b: int): int {
    if a < b then a else b
  }

  /** `buf`, whose first byte stands for file offset `base`, agrees with `all` from `lo` up to `hi`. */
  ghost predicate Agree(buf: seq<byte>, base: nat, all: seq<byte>, lo: nat, hi: int)
    requires base <= lo && hi <= |all| && hi - base <= |buf|
  {
    forall p :: lo <= p < hi ==> buf[p - base] == all[p]
  }

  /** `e` is `d` with data sectors `a` to `b - 1` of the file replaced by the bytes of `buf`, and
      nothing else on the disk touched. */
  ghost predicate Overwritten(d: Image, e: Image, h: Header, a: nat, b: nat, buf: seq<byte>)
    requires Good(h) && a <= b <= h.numSectors && |buf| == (b - a) * SECTOR_SIZE
  {
    && (forall i {:trigger h.dataSectors[i]} :: a <= i < b ==>
          e[h.dataSectors[i]] == buf[(i - a) * SECTOR_SIZE..(i - a) * SECTOR_SIZE + SECTOR_SIZE])
    && (forall s :: 0 <= s < DISK_NUM_SECTORS && s !in h.dataSectors[a..b] ==> e[s] == d[s])
  }

  /** Writing back whole sectors changes the file to `want` as soon as the buffer agrees with `want`
      inside those sectors and `want` keeps the old bytes outside them. */
  lemma OverwrittenBytes(d: Image, e: Image, h: Header, a: nat, b: nat, buf: seq<byte>, want: seq<byte>)
    requires Good(h) && Distinct(Data(h)) && a <= b <= h.numSectors && |buf| == (b - a) * SECTOR_SIZE
    requires Overwritten(d, e, h, a, b, buf)
    requires |want| == h.numBytes
    requires a * SECTOR_SIZE <= h.numBytes
             && Agree(buf, a * SECTOR_SIZE, want, a * SECTOR_SIZE, Min(b * SECTOR_SIZE, h.numBytes))
    requires forall p :: 0 <= p < h.numBytes && !(a * SECTOR_SIZE <= p < Min(b * SECTOR_SIZE, h.numBytes)) ==>
             want[p] == FileBytes(d, h)[p]
    ensures FileBytes(e, h) == want
  {
    forall p | 0 <= p < h.numBytes ensures FileBytes(e, h)[p] == want[p] {
      FileBytesAt(e, h, p);
      FileBytesAt(d, h, p);
      var i := p / SECTOR_SIZE;
      if a <= i < b {
        assert p - a * SECTOR_SIZE == (i - a) * SECTOR_SIZE + p % SECTOR_SIZE;
        assert buf[p - a * SECTOR_SIZE] == want[p];
      } else {
        assert Data(h)[i] == h.dataSectors[i];
        forall j | a <= j < b ensures h.dataSectors[j] != h.dataSectors[i] {
          assert Data(h)[j] == h.dataSectors[j];
        }
      }
    }
  }

  lemma OverwrittenStep(d: Image, e: Image, f: Image, h: Header, a: nat, b: nat, buf: seq<byte>)
    requires Good(h) && Distinct(Data(h)) && a < b <= h.numSectors && (b - a) * SECTOR_SIZE <= |buf|
    requires Overwritten(d, e, h, a, b - 1, buf[..(b - 1 - a) * SECTOR_SIZE])
    requires f == e[h.dataSectors[b - 1] := buf[(b - 1 - a) * SECTOR_SIZE..(b - 1 - a) * SECTOR_SIZE + SECTOR_SIZE]]
    ensures Overwritten(d, f, h, a, b, buf[..(b - a) * SECTOR_SIZE])
  {
    var longer := buf[..(b - a) * SECTOR_SIZE];
    assert h.dataSectors[a..b] == h.dataSectors[a..b - 1] + [h.dataSectors[b - 1]];
    forall j {:trigger h.dataSectors[j]} | a <= j < b
      ensures f[h.dataSectors[j]] == longer[(j - a) * SECTOR_SIZE..(j - a) * SECTOR_SIZE + SECTOR_SIZE]
    {
      assert Data(h)[j] == h.dataSectors[j] && Data(h)[b - 1] == h.dataSectors[b - 1];
      assert longer[(j - a) * SECTOR_SIZE..(j - a) * SECTOR_SIZE + SECTOR_SIZE] ==
        buf[(j - a) * SECTOR_SIZE..(j - a) * SECTOR_SIZE + SECTOR_SIZE];
      if j < b - 1 {
        var shorter := buf[..(b - 1 - a) * SECTOR_SIZE];
        assert shorter[(j - a) * SECTOR_SIZE..(j - a) * SECTOR_SIZE + SECTOR_SIZE] ==
          buf[(j - a) * SECTOR_SIZE..(j - a) * SECTOR_SIZE + SECTOR_SIZE];
      }
    }
  }

  /** Disk `d` after writing consecutive sectors of `buf` to data sectors `a` to `b - 1`, in order. */
  function Wrote(d: Image, h: Header, a: nat, b: nat, buf: seq<byte>): Image
    requires Good(h) && a <= b <= h.numSectors && (b - a) * SECTOR_SIZE <= |buf|
    decreases b
  {
    if a == b then d
    else Wrote(d, h, a, b - 1, buf)[h.dataSectors[b - 1] := buf[(b - 1 - a) * SECTOR_SIZE..(b - 1 - a) * SECTOR_SIZE
      + SECTOR_SIZE]]
  }

  lemma {:induction false} WroteOverwrites(d: Image, h: Header, a: nat, b: nat, buf: seq<byte>)
    requires Good(h) && Distinct(Data(h)) && a <= b <= h.numSectors && (b - a) * SECTOR_SIZE <= |buf|
    ensures Overwritten(d, Wrote(d, h, a, b, buf), h, a, b, buf[..(b - a) * SECTOR_SIZE])
    decreases b
  {
    if a < b {
      hide Overwritten, Distinct;
      WroteOverwrites(d, h, a, b - 1, buf);
      OverwrittenStep(d, Wrote(d, h, a, b - 1, buf), Wrote(d, h, a, b, buf), h, a, b, buf);
    }
  }

  /** Two disks that differ at most in the data sectors of one file. */
  ghost predicate OnlyData(d: Image, e: Image, h: Header)
    requires Good(h)
  {
    forall s :: 0 <= s < DISK_NUM_SECTORS && s !in Data(h) ==> e[s] == d[s]
  }

  lemma OverwrittenOnlyData(d: Image, e: Image, h: Header, a: nat, b: nat, buf: seq<byte>)
    requires Good(h) && a <= b <= h.numSectors && |buf| == (b - a) * SECTOR_SIZE
    requires Overwritten(d, e, h, a, b, buf)
    ensures OnlyData(d, e, h)
  {
    forall s | 0 <= s < DISK_NUM_SECTORS && s !in Data(h) ensures e[s] == d[s] {
      forall i | a <= i < b ensures h.dataSectors[i] != s {
        assert Data(h)[i] == h.dataSectors[i];
      }
    }
  }
}
