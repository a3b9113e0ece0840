/** HammingCode: the table built once for a data width, and the step-by-step Encode and
    Decode that work on a character buffer, as main.py writes them. */
module Hamming {
  import opened Binary
  import opened Layout
  import opened Codec

  class HammingCode {
    /** The number of parity bits. */
    const k: nat
    /** The codeword length, 2^k - 1. */
    const totalBit: nat
    /** One record per position: bits[i] describes position i + 1. */
    const bits: array<BitProp>

    ghost predicate Valid()
      reads this, bits
    {
      k >= 1 && totalBit == Total(k) && bits.Length == totalBit &&
      forall j :: 0 <= j < totalBit ==> bits[j] == Entry(k, j + 1)
    }

    /** Picks k for data width n and builds the table of positions (main.py:26-40). */
    constructor (n: nat)
      ensures Valid() && IsParityCount(n, k) && fresh(bits)
      ensures bits[..] == Table(k)
    {
      var parity := ParityCount(n);
      var table := BuildTable(parity);
      k := parity;
      totalBit := Total(parity);
      bits := table;
    }

    /** Encodes the character code c: its bits (from DecToBin(c, 7)) go least significant
        first into the data positions, then each parity bit is set to the XOR of the data
        bits of its group, and the buffer is rendered with position 1 last (main.py:42-71). */
    method Encode(c: nat) returns (encodes: string)
      requires Valid()
      ensures encodes == Render(EncodeWord(k, c))
      ensures |encodes| == totalBit && IsBinary(encodes)
    {
      var codeList := new char[totalBit](_ => '0');
      PlaceData(c, codeList);
      SetParity(c, codeList);
      encodes := RenderCode(codeList);
      RenderShape(EncodeWord(k, c));
    }

    /** Encode's parity loop: for each group p, the parity position of that group receives
        the XOR of the group's data bits (main.py:56-67). */
    method SetParity(c: nat, codeList: array<char>)
      requires Valid() && codeList.Length == totalBit
      requires forall j :: 0 <= j < totalBit ==> codeList[j] == Digit(DataBit(c, j + 1))
      modifies codeList
      ensures forall j :: 0 <= j < totalBit ==> codeList[j] == Digit(EncodeWord(k, c)[j])
    {
      var p := 0;
      while p < k
        invariant 0 <= p <= k
        invariant forall j :: 0 <= j < totalBit && !(IsPow2(j + 1) && k - p <= Log2(j + 1) < k) ==> codeList[j] == Digit(DataBit(c, j + 1))
        invariant forall j :: 0 <= j < totalBit && IsPow2(j + 1) && k - p <= Log2(j + 1) < k ==> codeList[j] == Digit(EncodeWord(k, c)[j])
      {
        var parityPosition, odd := GroupParityBit(c, codeList, p);
        EncodeParityBit(k, c, k - 1 - p);
        Pow2Unique(k - 1 - p);
        codeList[parityPosition] := if odd then '1' else '0';
        p := p + 1;
      }
      forall j | 0 <= j < totalBit
        ensures codeList[j] == Digit(EncodeWord(k, c)[j])
      {
        if IsPow2(j + 1) {
          Log2Below(j + 1, k);
        }
      }
    }

    /** Encode's first loop: pops the digits of DecToBin(c, 7) from the end into the data
        positions in increasing order, while any remain (main.py:49-55). */
    method PlaceData(c: nat, codeList: array<char>)
      requires Valid() && codeList.Length == totalBit
      requires forall j :: 0 <= j < totalBit ==> codeList[j] == '0'
      modifies codeList
      ensures forall j :: 0 <= j < totalBit ==> codeList[j] == Digit(DataBit(c, j + 1))
    {
      var asciiBin := DecToBin(c, 7);
      assert Represents(asciiBin, c) && c < Pow2(|asciiBin|) by {
        ToBinaryCorrect(c, 7);
      }
      var binList := asciiBin;
      var i := 0;
      while i < totalBit
        invariant 0 <= i <= totalBit
        invariant binList == asciiBin[..if DataCount(i) < |asciiBin| then |asciiBin| - DataCount(i) else 0]
        invariant forall j :: 0 <= j < i ==> codeList[j] == Digit(DataBit(c, j + 1))
        invariant forall j :: i <= j < totalBit ==> codeList[j] == '0'
      {
        EntryIsParity(k, i + 1);
        PlaceDataStep(c, asciiBin, i);
        if !bits[i].isParity && |binList| > 0 {
          codeList[i] := binList[|binList| - 1];
          binList := binList[..|binList| - 1];
        }
        i := i + 1;
      }
    }

    /** Decodes a received string: 'ERROR' when it is longer than a codeword; otherwise
        the string is read into the buffer with its last character at position 1, the k
        group checks give the syndrome, a nonzero syndrome flips that position, and the
        data positions, highest first, are read as a binary number (main.py:73-105). */
    method Decode(codings: string) returns (result: Decoded)
      requires Valid()
      requires |codings| <= totalBit ==> totalBit > k && IsBinary(codings)
      ensures result == DecodeString(k, codings)
      ensures result.TooLong? <==> |codings| > totalBit
    {
      if |codings| > totalBit {
        return TooLong;
      }
      ghost var w := Parse(codings, totalBit);
      var codeList := new char[totalBit](_ => '0');
      ReadCode(codings, codeList);
      var checksums := Checksums(codeList, w);
      var checksumDec := ParseBin(checksums);
      ghost var v := Correct(w, k);
      if checksumDec != 0 {
        assert v == w[checksumDec - 1 := !w[checksumDec - 1]];
        var value := codeList[checksumDec - 1];
        codeList[checksumDec - 1] := if value == '0' then '1' else '0';
      } else {
        assert v == w;
      }
      assert forall j :: 0 <= j < totalBit ==> codeList[j] == Digit(v[j]);
      var originalAsciiBin := ReadDataBits(codeList, v);
      result := Char(ParseBin(originalAsciiBin));
    }

    /** Decode's first loop: pops the characters of the input from the end into the
        positions 1, 2, ...; positions the input does not reach stay '0' (main.py:82-85). */
    method ReadCode(codings: string, codeList: array<char>)
      requires |codings| <= codeList.Length && IsBinary(codings)
      requires forall j :: 0 <= j < codeList.Length ==> codeList[j] == '0'
      modifies codeList
      ensures forall j :: 0 <= j < codeList.Length ==> codeList[j] == Digit(Parse(codings, codeList.Length)[j])
    {
      var binList := codings;
      var i := 0;
      while i < |codings|
        invariant 0 <= i <= |codings|
        invariant binList == codings[..|codings| - i]
        invariant forall j :: 0 <= j < i ==> codeList[j] == codings[|codings| - 1 - j]
        invariant forall j :: i <= j < codeList.Length ==> codeList[j] == '0'
      {
        codeList[i] := binList[|binList| - 1];
        binList := binList[..|binList| - 1];
        i := i + 1;
      }
    }

    /** Decode's checksum loop: character p is '1' when the group tested by digit p of the
        indices holds an odd number of ones (main.py:86-93). */
    method Checksums(codeList: array<char>, ghost w: Word) returns (checksums: string)
      requires Valid() && codeList.Length == totalBit && |w| == totalBit
      requires forall j :: 0 <= j < totalBit ==> codeList[j] == Digit(w[j])
      ensures checksums == SyndromeDigits(w, k)
    {
      checksums := "";
      var p := 0;
      while p < k
        invariant 0 <= p <= k
        invariant checksums == SyndromeDigits(w, k)[..p]
      {
        var odd := GroupCheck(codeList, p, w);
        checksums := checksums + [if odd then '1' else '0'];
        p := p + 1;
      }
    }

    /** One pass of Decode's checksum loop: the XOR of all bits, parity and data, of the
        positions whose index has digit p set (main.py:87-93). */
    method GroupCheck(codeList: array<char>, p: nat, ghost w: Word) returns (odd: bool)
      requires Valid() && codeList.Length == totalBit && p < k && |w| == totalBit
      requires forall j :: 0 <= j < totalBit ==> codeList[j] == Digit(w[j])
      ensures odd == GroupParity(w, k - 1 - p, totalBit)
    {
      odd := false;
      var i := 0;
      while i < totalBit
        invariant 0 <= i <= totalBit
        invariant odd == GroupParity(w, k - 1 - p, i)
      {
        CheckScanStep(k, p, i);
        var bitProp := bits[i];
        if bitProp.binIndex[p] == '1' && codeList[i] == '1' {
          odd := !odd;
        }
        i := i + 1;
      }
    }

    /** Decode's last loop: prepends the character of every data position, so the highest
        data position comes first (main.py:98-102). */
    method ReadDataBits(codeList: array<char>, ghost v: Word) returns (originalAsciiBin: string)
      requires Valid() && codeList.Length == totalBit && |v| == totalBit
      requires forall j :: 0 <= j < totalBit ==> codeList[j] == Digit(v[j])
      ensures originalAsciiBin == DataString(v, totalBit)
    {
      originalAsciiBin := "";
      var i := 0;
      while i < totalBit
        invariant 0 <= i <= totalBit
        invariant originalAsciiBin == DataString(v, i)
      {
        EntryIsParity(k, i + 1);
        var bitProp := bits[i];
        if !bitProp.isParity {
          originalAsciiBin := [codeList[i]] + originalAsciiBin;
        }
        i := i + 1;
      }
    }

    /** One pass of Encode's parity loop for group p: the XOR of the data bits whose index
        has digit p set, and where the parity bit of group p sits (main.py:57-66). */
    method GroupParityBit(c: nat, codeList: array<char>, p: nat) returns (parityPosition: nat, odd: bool)
      requires Valid() && codeList.Length == totalBit && p < k
      requires forall j :: 0 <= j < totalBit && !IsPow2(j + 1) ==> codeList[j] == Digit(DataBit(c, j + 1))
      ensures parityPosition == Pow2(k - 1 - p) - 1 < totalBit
      ensures odd == DataParity(DataWord(k, c), k - 1 - p, totalBit)
    {
      var b := k - 1 - p;
      parityPosition := 0;
      odd := false;
      Log2OfPow2(b);
      Pow2Monotone(b + 1, k);
      var i := 0;
      while i < totalBit
        invariant 0 <= i <= totalBit
        invariant odd == DataParity(DataWord(k, c), b, i)
        invariant parityPosition == if Pow2(b) <= i then Pow2(b) - 1 else 0
      {
        ParityScanStep(k, c, p, i, codeList[i]);
        var bitProp := bits[i];
        if bitProp.isParity {
          if bitProp.parityGroup == Some(p) {
            parityPosition := i;
          }
        } else {
          if bitProp.binIndex[p] == '1' && codeList[i] == '1' {
            odd := !odd;
          }
        }
        i := i + 1;
      }
    }
  }

  /** The constructor's first loop: k starts at 1 and grows while 2^k < n + k + 1
      (main.py:27-29). */
  method ParityCount(n: nat) returns (parity: nat)
    ensures IsParityCount(n, parity)
  {
    parity := 1;
    while Pow2(parity) < n + parity + 1
      invariant parity >= 1
      invariant forall j :: 1 <= j < parity ==> Pow2(j) < n + j + 1
      decreases n + 1 - parity
    {
      Pow2AtLeastDouble(parity);
      parity := parity + 1;
    }
  }

  /** The constructor's second loop: one record per position 1 .. 2^k - 1, with DecToBin(i, k)
      as its index, and a parity flag and group at each power of two (main.py:30-40). */
  method BuildTable(k: nat) returns (table: array<BitProp>)
    requires k >= 1
    ensures fresh(table) && table[..] == Table(k)
  {
    var total := Total(k);
    table := new BitProp[total];
    var power := 0;
    var i := 1;
    while i <= total
      invariant 1 <= i <= total + 1
      invariant (power == 0 && i == 1) || (power >= 1 && Pow2(power - 1) < i <= Pow2(power))
      invariant forall j :: 0 <= j < i - 1 ==> table[j] == Entry(k, j + 1)
    {
      var binIndex := DecToBin(i, k);
      TableStep(k, i, power);
      if i == Pow2(power) {
        table[i - 1] := BitProp(binIndex, true, Some(k - power - 1));
        power := power + 1;
      } else {
        table[i - 1] := BitProp(binIndex, false, None);
      }
      i := i + 1;
    }
    assert table[..] == Table(k);
  }

  /** One step of the constructor's table loop: while power counts the powers of two
      passed so far, position i is a parity position exactly when it equals 2^power, and
      then it stores group k - power - 1. */
  lemma TableStep(k: nat, i: nat, power: nat)
    requires 1 <= i < Pow2(k)
    requires (power == 0 && i == 1) || (power >= 1 && Pow2(power - 1) < i <= Pow2(power))
    ensures i == Pow2(power) ==> power < k && Entry(k, i) == BitProp(ToBinary(i, k), true, Some(k - power - 1))
    ensures i != Pow2(power) ==> Entry(k, i) == BitProp(ToBinary(i, k), false, None)
  {
    if i == Pow2(power) {
      Log2OfPow2(power);
      Log2Below(i, k);
    } else if power >= 1 {
      NotPow2Between(i, power - 1);
    }
  }

  /** One step of Encode's parity scan for group p over index i (position i + 1): the
      record's parity group identifies position 2^(k-1-p), and the running XOR of the data
      bits of that group takes in this position exactly when the scan toggles. */
  lemma ParityScanStep(k: nat, c: nat, p: nat, i: nat, ch: char)
    requires p < k && i < Total(k)
    requires !IsPow2(i + 1) ==> ch == Digit(DataBit(c, i + 1))
    ensures |Entry(k, i + 1).binIndex| == k
    ensures Entry(k, i + 1).isParity && Entry(k, i + 1).parityGroup == Some(p) <==> i + 1 == Pow2(k - 1 - p)
    ensures DataParity(DataWord(k, c), k - 1 - p, i + 1) ==
      (DataParity(DataWord(k, c), k - 1 - p, i) != (!Entry(k, i + 1).isParity && Entry(k, i + 1).binIndex[p] == '1' && ch == '1'))
  {
    EntryFacts(k, i + 1);
    BinIndexDigits(k, i + 1);
    PowerOfTwo(i + 1);
    Log2OfPow2(k - 1 - p);
  }

  /** One step of Decode's checksum loop for digit p over index i (position i + 1): the
      record's index is k digits long and its digit p is '1' exactly when position i + 1
      belongs to group k - 1 - p. */
  lemma CheckScanStep(k: nat, p: nat, i: nat)
    requires p < k && i < Total(k)
    ensures |Entry(k, i + 1).binIndex| == k
    ensures Entry(k, i + 1).binIndex[p] == '1' <==> Bit(i + 1, k - 1 - p)
  {
    EntryFacts(k, i + 1);
    BinIndexDigits(k, i + 1);
  }

  /** Encode's last loop: prepends each character of the buffer, so the result is the
      buffer reversed and position 1 comes last (main.py:68-71). */
  method RenderCode(codeList: array<char>) returns (encodes: string)
    ensures |encodes| == codeList.Length
    ensures forall t :: 0 <= t < codeList.Length ==> encodes[t] == codeList[codeList.Length - 1 - t]
  {
    encodes := "";
    var i := 0;
    while i < codeList.Length
      invariant 0 <= i <= codeList.Length
      invariant |encodes| == i
      invariant forall t :: 0 <= t < i ==> encodes[t] == codeList[i - 1 - t]
    {
      encodes := [codeList[i]] + encodes;
      i := i + 1;
    }
  }

  /** One step of Encode's first loop at index i (position i + 1), where s is the numeral of
      c: a data position takes the digit of c of weight 2^(its rank), which is the next
      digit left at the end of s, or 0 once s is used up. */
  lemma PlaceDataStep(c: nat, s: string, i: nat)
    requires Represents(s, c) && c < Pow2(|s|)
    ensures DataCount(i + 1) == DataCount(i) + (if IsPow2(i + 1) then 0 else 1)
    ensures !IsPow2(i + 1) && DataCount(i) < |s| ==> s[|s| - DataCount(i) - 1] == Digit(DataBit(c, i + 1))
    ensures !IsPow2(i + 1) && DataCount(i) >= |s| ==> !DataBit(c, i + 1)
  {
    if DataCount(i) >= |s| {
      Pow2Monotone(|s|, DataCount(i));
      BitAboveIsZero(c, DataCount(i));
    }
  }
}
