// PersistentBitmap: a bitmap that can be fetched from and stored to a file.
module PersistentBitmaps {
  import opened Collections
  import opened Codec
  import opened HeaderValue
  import opened Bitmaps
  import opened OpenFile

  function EncodeWords(words: seq<bv32>): (b: seq<byte>)
    ensures |b| == 4 * |words|
  {
    if words == [] then [] else EncodeWord(words[0]) + EncodeWords(words[1..])
  }

  function DecodeWords(b: seq<byte>): (words: seq<bv32>)
    requires |b| % 4 == 0
    ensures |words| == |b| / 4
  {
    if b == [] then [] else [DecodeWord(b[..4])] + DecodeWords(b[4..])
  }

  lemma {:induction false} WordsRoundTrip(words: seq<bv32>)
    ensures DecodeWords(EncodeWords(words)) == words
  {
    if words != [] {
      WordRoundTrip(words[0]);
      WordsRoundTrip(words[1..]);
      assert EncodeWords(words)[..4] == EncodeWord(words[0]);
      assert EncodeWords(words)[4..] == EncodeWords(words[1..]);
    }
  }

  /** The bitmap itself is a base class in the original; here it is a component. */
  class PersistentBitmap {
    const bitmap: Bitmap

    ghost predicate Valid() {
      bitmap.Valid() && bitmap.numWords * 4 <= INT_MAX
    }

    ghost function Bits(): (s: seq<bool>)
      requires Valid()
      reads bitmap.store
      ensures |s| == bitmap.numBits
    {
      bitmap.Bits()
    }

    constructor (numItems: int32)
      requires numItems > 0
      ensures Valid() && bitmap.numBits == numItems && fresh(bitmap) && fresh(bitmap.store)
      ensures Bits() == seq(numItems, i => false)
    {
      bitmap := new Bitmap(numItems);
    }

    /** Overwrite the words with the first bytes of `file`, as far as the file reaches. */
    method FetchFrom(file: OpenNaFile)
      requires Valid() && file.Valid() && bitmap.store !in file.Repr()
      modifies bitmap.store
      ensures var g := Granted(file.hdr.numBytes, bitmap.numWords * 4, 0);
              bitmap.store[..] == DecodeWords(file.Bytes()[..g] + EncodeWords(old(bitmap.store[..]))[g..])
      ensures file.hdr.numBytes == bitmap.numWords * 4 ==> bitmap.store[..] == DecodeWords(file.Bytes())
    {
      hide EncodeWords, DecodeWords, FileBytes, Raw, Distinct, Splice, OnlyData;
      var bytes := EncodeWords(bitmap.store[..]);
      var buf := new byte[bitmap.numWords * 4](i requires 0 <= i < bitmap.numWords * 4 => bytes[i]);
      assert buf[..] == bytes;
      var g := file.ReadAt(buf, 0, bitmap.numWords * 4, 0);
      assert buf[..] == buf[0..0 + g] + buf[g..];
      assert buf[g..] == bytes[g..];
      ghost var got := buf[..];
      assert got == file.Bytes()[..g] + bytes[g..];
      assert file.hdr.numBytes == bitmap.numWords * 4 ==> got == file.Bytes();
      var words := DecodeWords(buf[..]);
      forall i | 0 <= i < bitmap.numWords {
        bitmap.store[i] := words[i];
      }
      assert bitmap.store[..] == words;
    }

    method WriteBack(file: OpenNaFile)
      requires Valid() && file.Valid() && bitmap.store !in file.Repr()
      modifies file.disk.sectors
      ensures bitmap.store[..] == old(bitmap.store[..])
      ensures file.Valid() && file.hdr.Value() == old(file.hdr.Value())
      ensures var g := Granted(file.hdr.numBytes, bitmap.numWords * 4, 0);
              file.Bytes() == EncodeWords(bitmap.store[..])[..g] + old(file.Bytes())[g..]
      ensures file.hdr.numBytes == bitmap.numWords * 4 ==> file.Bytes() == EncodeWords(bitmap.store[..])
      ensures OnlyData(old(file.disk.Contents()), file.disk.Contents(), file.hdr.Value())
    {
      hide EncodeWords, DecodeWords, FileBytes, Raw, Distinct, Splice, OnlyData;
      var bytes := EncodeWords(bitmap.store[..]);
      var buf := new byte[bitmap.numWords * 4](i requires 0 <= i < bitmap.numWords * 4 => bytes[i]);
      assert buf[..] == bytes;
      ghost var was := file.Bytes();
      var g := file.WriteAt(buf, bitmap.numWords * 4, 0);
      if g > 0 {
        SpliceFront(was, buf[..g]);
        assert buf[..g] == bytes[..g];
      }
    }
  }
}
