// Bitmap: a set of sectors (or memory frames), packed 32 to a word.
module Bitmaps {
  import opened Codec
  import opened HeaderValue

  const BITS_IN_WORD := 32

  /** `1 << k`. */
  function Mask(k: nat): bv32
    requires k < BITS_IN_WORD
  {
    (1 as bv32) << k
  }

  /** `w & m`, as a truth value. */
  predicate Hit(w: bv32, m: bv32) {
    w & m != 0
  }

  function Or(w: bv32, m: bv32): bv32 {
    w | m
  }

  function AndNot(w: bv32, m: bv32): bv32 {
    w & !m
  }

  /** Bit `k` of a word. */
  predicate Bit(w: bv32, k: nat)
    requires k < BITS_IN_WORD
  {
    Hit(w, Mask(k))
  }

  lemma MasksDisjoint(k: nat, j: nat)
    requires k < BITS_IN_WORD && j < BITS_IN_WORD
    ensures Mask(k) != 0 && (j != k ==> !Hit(Mask(k), Mask(j)))
  {
    var a, b := k as bv32, j as bv32;
    assert (1 as bv32) << a == (1 as bv32) << k;
    assert (1 as bv32) << b == (1 as bv32) << j;
  }

  lemma OrSelf(w: bv32, m: bv32)
    requires m != 0
    ensures Hit(Or(w, m), m)
  {
  }

  lemma AndNotSelf(w: bv32, m: bv32)
    ensures !Hit(AndNot(w, m), m)
  {
  }

  lemma OrOther(w: bv32, m: bv32, n: bv32)
    requires !Hit(m, n)
    ensures Hit(Or(w, m), n) == Hit(w, n)
  {
  }

  lemma AndNotOther(w: bv32, m: bv32, n: bv32)
    requires !Hit(m, n)
    ensures Hit(AndNot(w, m), n) == Hit(w, n)
  {
  }

  lemma SetBit(w: bv32, k: nat, j: nat)
    requires k < BITS_IN_WORD && j < BITS_IN_WORD
    ensures Bit(Or(w, Mask(k)), j) <==> (j == k || Bit(w, j))
  {
    hide Mask, Hit, Or;
    MasksDisjoint(k, j);
    if j == k {
      OrSelf(w, Mask(k));
    } else {
      OrOther(w, Mask(k), Mask(j));
    }
  }

  lemma ClearBit(w: bv32, k: nat, j: nat)
    requires k < BITS_IN_WORD && j < BITS_IN_WORD
    ensures Bit(AndNot(w, Mask(k)), j) <==> (j != k && Bit(w, j))
  {
    hide Mask, Hit, AndNot;
    MasksDisjoint(k, j);
    if j == k {
      AndNotSelf(w, Mask(k));
    } else {
      AndNotOther(w, Mask(k), Mask(j));
    }
  }

  /** The first `n` bits of a word array, as truth values. */
  function BitsOf(words: seq<bv32>, n: nat): (s: seq<bool>)
    requires n <= |words| * BITS_IN_WORD
    ensures |s| == n
    ensures forall i :: 0 <= i < n ==> s[i] == Bit(words[i / BITS_IN_WORD], i % BITS_IN_WORD)
  {
    seq(n, i requires 0 <= i < n => Bit(words[i / BITS_IN_WORD], i % BITS_IN_WORD))
  }

  /** `words` are `bits`, packed. */
  predicate Packs(words: seq<bv32>, bits: seq<bool>) {
    |words| == DivRoundUp(|bits|, BITS_IN_WORD) && bits == BitsOf(words, |bits|)
  }

  function CountClear(bits: seq<bool>): (c: nat)
    ensures c <= |bits|
  {
    if bits == [] then 0 else CountClear(bits[..|bits| - 1]) + if bits[|bits| - 1] then 0 else 1
  }

  lemma {:induction false} CountClearSet(bits: seq<bool>, k: nat)
    requires k < |bits| && !bits[k]
    ensures CountClear(bits[k := true]) == CountClear(bits) - 1
  {
    var n := |bits| - 1;
    if k < n {
      CountClearSet(bits[..n], k);
      assert bits[k := true][..n] == bits[..n][k := true];
    } else {
      assert bits[k := true][..n] == bits[..n];
    }
  }

  lemma {:induction false} CountClearAll(bits: seq<bool>)
    requires forall i :: 0 <= i < |bits| ==> !bits[i]
    ensures CountClear(bits) == |bits|
  {
    if bits != [] {
      CountClearAll(bits[..|bits| - 1]);
    }
  }

  lemma {:induction false} CountClearZero(bits: seq<bool>)
    ensures CountClear(bits) == 0 <==> forall i :: 0 <= i < |bits| ==> bits[i]
  {
    if bits != [] {
      CountClearZero(bits[..|bits| - 1]);
      assert forall i :: 0 <= i < |bits| - 1 ==> bits[..|bits| - 1][i] == bits[i];
    }
  }

  class Bitmap {
    const numBits: nat
    const numWords: nat
    const store: array<bv32>    // the words called map in the original

    ghost predicate Valid() {
      && numWords == DivRoundUp(numBits, BITS_IN_WORD)
      && store.Length == numWords
    }

    ghost function Bits(): (s: seq<bool>)
      requires Valid()
      reads store
      ensures |s| == numBits
    {
      BitsOf(store[..], numBits)
    }

    /** Every bit clear. */
    constructor (numItems: int32)
      requires numItems > 0
      ensures Valid() && numBits == numItems && fresh(store)
      ensures Bits() == seq(numItems, i => false)
    {
      numBits := numItems;
      numWords := DivRoundUp(numItems, BITS_IN_WORD);
      store := new bv32[DivRoundUp(numItems, BITS_IN_WORD)](i => 0);
    }

    method Mark(which: int)
      requires Valid() && 0 <= which < numBits
      modifies store
      ensures Bits() == old(Bits())[which := true]
    {
      hide Mask, Bit, Or, AndNot;
      store[which / BITS_IN_WORD] := Or(store[which / BITS_IN_WORD], Mask(which % BITS_IN_WORD));
      forall i | 0 <= i < numBits ensures Bits()[i] == old(Bits())[which := true][i] {
        if i / BITS_IN_WORD == which / BITS_IN_WORD {
          SetBit(old(store[which / BITS_IN_WORD]), which % BITS_IN_WORD, i % BITS_IN_WORD);
        }
      }
    }

    method Clear(which: int)
      requires Valid() && 0 <= which < numBits
      modifies store
      ensures Bits() == old(Bits())[which := false]
    {
      hide Mask, Bit, Or, AndNot;
      store[which / BITS_IN_WORD] := AndNot(store[which / BITS_IN_WORD], Mask(which % BITS_IN_WORD));
      forall i | 0 <= i < numBits ensures Bits()[i] == old(Bits())[which := false][i] {
        if i / BITS_IN_WORD == which / BITS_IN_WORD {
          ClearBit(old(store[which / BITS_IN_WORD]), which % BITS_IN_WORD, i % BITS_IN_WORD);
        }
      }
    }

    method Test(which: int) returns (r: bool)
      requires Valid() && 0 <= which < numBits
      ensures r == Bits()[which]
    {
      r := Hit(store[which / BITS_IN_WORD], Mask(which % BITS_IN_WORD));
    }

    method FindAndSet() returns (r: int)
      requires Valid()
      modifies store
      ensures r == -1 ==> Bits() == old(Bits()) && forall i :: 0 <= i < numBits ==> Bits()[i]
      ensures r != -1 ==> 0 <= r < numBits && !old(Bits())[r] && Bits() == old(Bits())[r := true]
      ensures forall i :: 0 <= i < r ==> old(Bits())[i]
    {
      var i := 0;
      while i < numBits
        invariant 0 <= i <= numBits
        invariant Bits() == old(Bits())
        invariant forall j :: 0 <= j < i ==> Bits()[j]
      {
        var marked := Test(i);
        if !marked {
          Mark(i);
          return i;
        }
        i := i + 1;
      }
      r := -1;
    }

    method NumClear() returns (count: nat)
      requires Valid()
      ensures count == CountClear(Bits())
    {
      hide Bit;
      count := 0;
      var i := 0;
      while i < numBits
        invariant 0 <= i <= numBits
        invariant count == CountClear(Bits()[..i])
      {
        var marked := Test(i);
        assert Bits()[..i + 1][..i] == Bits()[..i];
        if !marked {
          count := count + 1;
        }
        i := i + 1;
      }
      assert Bits()[..numBits] == Bits();
    }
  }
}
