/** The codeword layout HammingCode builds once per data width n: the number of parity
    bits k, the codeword length 2^k - 1 and one HammingBitProp record per position. */
module Layout {
  import opened Binary

  datatype Option<T> = None | Some(value: T)

  /** HammingBitProp: the properties of one codeword position. */
  datatype BitProp = BitProp(binIndex: string, isParity: bool, parityGroup: Option<nat>)

  /** i is 1, 2, 4, 8, ... */
  predicate IsPow2(i: nat)
  {
    if i <= 1 then i == 1 else i % 2 == 0 && IsPow2(i / 2)
  }

  /** The exponent of the largest power of two not above i. */
  function Log2(i: nat): nat
    requires i >= 1
  {
    if i == 1 then 0 else 1 + Log2(i / 2)
  }

  /** k is the number of parity bits chosen for data width n: the least k >= 1 with
      2^k >= n + k + 1. */
  predicate IsParityCount(n: nat, k: nat)
  {
    1 <= k && Pow2(k) >= n + k + 1 && forall j :: 1 <= j < k ==> Pow2(j) < n + j + 1
  }

  /** The number of data positions (positions that are not powers of two) among 1..m. */
  function DataCount(m: nat): nat
  {
    if m == 0 then 0 else DataCount(m - 1) + (if IsPow2(m) then 0 else 1)
  }

  /** The record the constructor stores for position i when there are k parity bits. */
  function Entry(k: nat, i: nat): BitProp
    requires 1 <= i < Pow2(k)
  {
    if IsPow2(i) then
      Log2Below(i, k);
      BitProp(ToBinary(i, k), true, Some(k - Log2(i) - 1))
    else
      BitProp(ToBinary(i, k), false, None)
  }

  /** The length of a codeword with k parity bits. */
  function Total(k: nat): nat
  {
    Pow2(k) - 1
  }

  /** The whole table: entry j describes position j + 1. */
  function Table(k: nat): seq<BitProp>
  {
    seq(Total(k), j requires 0 <= j < Total(k) => Entry(k, j + 1))
  }

  /** The number of parity records in a table. */
  function CountParity(t: seq<BitProp>): nat
  {
    if t == [] then 0 else CountParity(t[..|t| - 1]) + (if t[|t| - 1].isParity then 1 else 0)
  }

  lemma {:induction false} Log2Bounds(i: nat)
    requires i >= 1
    ensures Pow2(Log2(i)) <= i < Pow2(Log2(i) + 1)
  {
    if i > 1 {
      Log2Bounds(i / 2);
    }
  }

  lemma Log2Below(i: nat, k: nat)
    requires 1 <= i < Pow2(k)
    ensures Log2(i) < k
  {
    Log2Bounds(i);
    if Log2(i) >= k {
      Pow2Monotone(k, Log2(i));
    }
  }

  lemma {:induction false} Log2Between(i: nat, p: nat)
    requires Pow2(p) <= i < Pow2(p + 1)
    ensures Log2(i) == p
  {
    if p > 0 {
      Log2Between(i / 2, p - 1);
    }
  }

  /** 2^j is a power of two, and its exponent is j. */
  lemma {:induction false} Log2OfPow2(j: nat)
    ensures IsPow2(Pow2(j)) && Log2(Pow2(j)) == j
  {
    if j > 0 {
      Log2OfPow2(j - 1);
    }
  }

  /** i is a power of two exactly when it is 2^Log2(i). */
  lemma {:induction false} PowerOfTwo(i: nat)
    requires i >= 1
    ensures IsPow2(i) <==> i == Pow2(Log2(i))
  {
    Log2OfPow2(Log2(i));
    if i > 1 {
      PowerOfTwo(i / 2);
    }
  }

  /** 2^b is the only power of two whose exponent is b. */
  lemma Pow2Unique(b: nat)
    ensures forall i :: 1 <= i && IsPow2(i) && Log2(i) == b ==> i == Pow2(b)
  {
    forall i | 1 <= i && IsPow2(i) && Log2(i) == b
      ensures i == Pow2(b)
    {
      PowerOfTwo(i);
    }
  }

  /** No power of two lies strictly between 2^p and 2^(p+1). */
  lemma NotPow2Between(i: nat, p: nat)
    requires Pow2(p) < i < Pow2(p + 1)
    ensures !IsPow2(i)
  {
    Log2Between(i, p);
    PowerOfTwo(i);
  }

  lemma {:induction false} DataCountRun(a: nat, t: nat)
    requires forall i :: a < i <= a + t ==> !IsPow2(i)
    ensures DataCount(a + t) == DataCount(a) + t
  {
    if t > 0 {
      DataCountRun(a, t - 1);
    }
  }

  /** Positions 2^j + 1 .. 2^(j+1) - 1 are all data positions. */
  lemma DataCountDouble(j: nat)
    ensures DataCount(2 * Pow2(j) - 1) == DataCount(Pow2(j) - 1) + Pow2(j) - 1
  {
    var h := Pow2(j);
    Log2OfPow2(j);
    assert DataCount(h) == DataCount(h - 1);
    forall i | h < i <= h + (h - 1)
      ensures !IsPow2(i)
    {
      NotPow2Between(i, j);
    }
    DataCountRun(h, h - 1);
  }

  /** A codeword of 2^k - 1 positions holds 2^k - 1 - k data bits. */
  lemma {:induction false} DataCountTotal(k: nat)
    ensures Pow2(k) >= k + 1
    ensures DataCount(Total(k)) == Total(k) - k
  {
    if k > 0 {
      DataCountTotal(k - 1);
      DataCountDouble(k - 1);
      assert Total(k) == 2 * Pow2(k - 1) - 1 && Total(k - 1) == Pow2(k - 1) - 1;
    }
  }

  /** The k the constructor picks leaves room for at least n data bits, so for n >= 1 the
      codeword is longer than k. */
  lemma ParityCountCapacity(n: nat, k: nat)
    requires IsParityCount(n, k)
    ensures DataCount(Total(k)) == Total(k) - k >= n
  {
    DataCountTotal(k);
  }

  /** There is only one such k: the constructor's loop stops at the least one. */
  lemma ParityCountUnique(n: nat, k1: nat, k2: nat)
    requires IsParityCount(n, k1) && IsParityCount(n, k2)
    ensures k1 == k2
  {
  }

  /** For seven-bit characters the layout is Hamming(15, 11). */
  lemma ParityCountSeven(k: nat)
    requires IsParityCount(7, k)
    ensures k == 4 && Total(k) == 15 && DataCount(Total(k)) == 11
  {
    assert Pow2(1) == 2 && Pow2(2) == 4 && Pow2(3) == 8 && Pow2(4) == 16;
    assert IsParityCount(7, 4);
    ParityCountUnique(7, k, 4);
    DataCountTotal(k);
  }

  /** The digits of a position's index, written with k digits. */
  lemma BinIndexDigits(k: nat, i: nat)
    requires 1 <= i < Pow2(k)
    ensures |ToBinary(i, k)| == k
    ensures forall p :: 0 <= p < k ==> (ToBinary(i, k)[p] == '1' <==> Bit(i, k - 1 - p))
  {
    ToBinaryLength(i, k);
    ToBinaryCorrect(i, k);
  }

  /** What the table says about position i: its index is DecToBin(i, k), k digits long,
      it is a parity position iff i is a power of two, and a parity position 2^j stores
      group k - j - 1. */
  lemma EntryFacts(k: nat, i: nat)
    requires 1 <= i < Pow2(k)
    ensures |Table(k)| == Total(k) && Table(k)[i - 1] == Entry(k, i)
    ensures Entry(k, i).binIndex == ToBinary(i, k) && |Entry(k, i).binIndex| == k
    ensures Entry(k, i).isParity <==> IsPow2(i)
    ensures IsPow2(i) ==> Log2(i) < k && Entry(k, i).parityGroup == Some(k - 1 - Log2(i))
    ensures !IsPow2(i) ==> Entry(k, i).parityGroup == None
  {
    Log2Below(i, k);
    BinIndexDigits(k, i);
  }

  /** The record of position i is a parity record exactly when i is a power of two. */
  lemma EntryIsParity(k: nat, i: nat)
    requires 1 <= i < Pow2(k)
    ensures Entry(k, i).isParity <==> IsPow2(i)
  {
  }

  /** The record of position 2^j is a parity record storing group k - j - 1. */
  lemma ParityEntry(k: nat, j: nat)
    requires j < k
    ensures Pow2(j) < Pow2(k)
    ensures Entry(k, Pow2(j)).isParity && Entry(k, Pow2(j)).parityGroup == Some(k - j - 1)
  {
    Pow2Monotone(j + 1, k);
    Log2OfPow2(j);
    EntryFacts(k, Pow2(j));
  }

  /** The index of position 2^j has a '1' in digit k - j - 1, the digit of the group it
      stores. */
  lemma ParityEntryOwnDigit(k: nat, j: nat)
    requires j < k
    ensures Pow2(j) < Pow2(k) && |Entry(k, Pow2(j)).binIndex| == k
    ensures Entry(k, Pow2(j)).binIndex[k - j - 1] == '1'
  {
    Pow2Monotone(j + 1, k);
    EntryFacts(k, Pow2(j));
    BinIndexDigits(k, Pow2(j));
    BitOfPow2(j, j);
  }

  lemma {:induction false} CountParityPrefix(k: nat, m: nat)
    requires m <= Total(k)
    ensures CountParity(Table(k)[..m]) == m - DataCount(m)
  {
    if m > 0 {
      CountParityPrefix(k, m - 1);
      assert Table(k)[..m][..m - 1] == Table(k)[..m - 1];
      EntryFacts(k, m);
    }
  }

  /** Exactly k positions of the table are parity positions. */
  lemma ParityEntries(k: nat)
    ensures CountParity(Table(k)) == k
  {
    DataCountTotal(k);
    CountParityPrefix(k, Total(k));
    assert Table(k)[..Total(k)] == Table(k);
  }
}
