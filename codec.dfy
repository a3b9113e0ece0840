/** What HammingCode.Encode and HammingCode.Decode compute, stated position by position,
    and the properties of the code: every group has even parity in a codeword, the syndrome
    of a codeword is 0, the syndrome of a codeword with one flipped bit is that bit's
    position, and decoding undoes encoding with or without one bit error. */
module Codec {
  import opened Binary
  import opened Layout

  /** A codeword by position: w[i - 1] is the bit at position i. */
  type Word = seq<bool>

  /** Decode's result: a character code, or the 'ERROR' string for over-long input. */
  datatype Decoded = Char(code: nat) | TooLong

  /** The bit Encode's first loop places at position i: for a data position, bit r of c
      where i is the r-th data position (counting from 0); for a parity position, 0. */
  function DataBit(c: nat, i: nat): bool
  {
    i >= 1 && !IsPow2(i) && Bit(c, DataCount(i - 1))
  }

  /** The codeword after Encode's first loop. */
  function DataWord(k: nat, c: nat): Word
  {
    seq(Total(k), j requires 0 <= j < Total(k) => DataBit(c, j + 1))
  }

  /** XOR of the data bits among positions 1..m whose bit b is set. Bit b of a k-digit index
      is its digit k - 1 - b, so these are the positions of ParityGroup k - 1 - b. */
  function DataParity(w: Word, b: nat, m: nat): bool
    requires m <= |w|
  {
    if m == 0 then false else DataParity(w, b, m - 1) != (!IsPow2(m) && Bit(m, b) && w[m - 1])
  }

  /** The bit Encode stores at position i: the parity bit 2^b is the XOR of the data bits
      of the positions with bit b set (ParityGroup k - 1 - b), every other position keeps its
      data bit. */
  function CodeBit(k: nat, c: nat, i: nat): bool
  {
    if IsPow2(i) then DataParity(DataWord(k, c), Log2(i), Total(k)) else DataBit(c, i)
  }

  /** The codeword Encode produces for character code c. */
  function EncodeWord(k: nat, c: nat): Word
  {
    seq(Total(k), j requires 0 <= j < Total(k) => CodeBit(k, c, j + 1))
  }

  /** The string form of a codeword: position 1 is the last character. */
  function Render(w: Word): string
  {
    seq(|w|, q requires 0 <= q < |w| => Digit(w[|w| - 1 - q]))
  }

  /** Decode's reading of a string into t positions: the last character is position 1,
      missing high positions are 0. */
  function Parse(s: string, t: nat): Word
  {
    seq(t, j requires 0 <= j < t => j < |s| && s[|s| - 1 - j] == '1')
  }

  /** XOR of all bits (parity and data) among positions 1..m whose bit b is set. */
  function GroupParity(w: Word, b: nat, m: nat): bool
    requires m <= |w|
  {
    if m == 0 then false else GroupParity(w, b, m - 1) != (Bit(m, b) && w[m - 1])
  }

  /** The checksum string Decode builds: character p is the parity of the group tested by
      digit p of the k-digit indices, that is of bit k - 1 - p. */
  function SyndromeDigits(w: Word, k: nat): string
    requires |w| == Total(k)
  {
    seq(k, p requires 0 <= p < k => Digit(GroupParity(w, k - 1 - p, |w|)))
  }

  /** The syndrome: the checksum string read as a binary number. */
  function Syndrome(w: Word, k: nat): (s: nat)
    requires |w| == Total(k)
    ensures s <= Total(k)
  {
    ParseBin(SyndromeDigits(w, k))
  }

  /** Decode's correction step: flip the bit at the syndrome's position unless it is 0. */
  function Correct(w: Word, k: nat): Word
    requires |w| == Total(k)
  {
    var s := Syndrome(w, k);
    if s == 0 then w else w[s - 1 := !w[s - 1]]
  }

  /** The data positions among 1..m as a numeral: the highest position first. */
  function DataString(w: Word, m: nat): string
    requires m <= |w|
  {
    if m == 0 then []
    else if IsPow2(m) then DataString(w, m - 1)
    else [Digit(w[m - 1])] + DataString(w, m - 1)
  }

  /** The character code Decode reads off the data positions of a corrected codeword. */
  function ReadData(w: Word): nat
  {
    ParseBin(DataString(w, |w|))
  }

  /** What Decode returns for the string s. */
  function DecodeString(k: nat, s: string): Decoded
  {
    if |s| > Total(k) then TooLong else Char(ReadData(Correct(Parse(s, Total(k)), k)))
  }

  /** The string s with character j inverted. */
  function FlipChar(s: string, j: nat): string
    requires j < |s|
  {
    s[j := if s[j] == '0' then '1' else '0']
  }

  // ----- Properties of Encode -----

  /** Encode's output is a string of Total(k) characters '0' and '1' whose last character is
      position 1. */
  lemma RenderShape(w: Word)
    ensures |Render(w)| == |w| && IsBinary(Render(w))
    ensures forall j :: 0 <= j < |w| ==> (Render(w)[|w| - 1 - j] == '1' <==> w[j])
  {
    var r := Render(w);
    forall q | 0 <= q < |r|
      ensures r[q] == Digit(w[|w| - 1 - q]) && (r[q] == '0' || r[q] == '1')
    {
    }
    forall j | 0 <= j < |w|
      ensures r[|w| - 1 - j] == '1' <==> w[j]
    {
      assert r[|w| - 1 - j] == Digit(w[j]);
    }
  }

  /** Inverting character j of a rendered word inverts position |w| - j. */
  lemma ParseFlipped(w: Word, j: nat)
    requires j < |w|
    ensures |Render(w)| == |w|
    ensures Parse(FlipChar(Render(w), j), |w|) == w[|w| - 1 - j := !w[|w| - 1 - j]]
  {
    RenderShape(w);
  }

  /** Reading back a rendered codeword gives the codeword. */
  lemma ParseRender(w: Word)
    ensures Parse(Render(w), |w|) == w
  {
    RenderShape(w);
  }

  lemma {:induction false} DataParityAgree(w1: Word, w2: Word, b: nat, m: nat)
    requires m <= |w1| && m <= |w2|
    requires forall j :: 0 <= j < m && !IsPow2(j + 1) ==> w1[j] == w2[j]
    ensures DataParity(w1, b, m) == DataParity(w2, b, m)
  {
    if m > 0 {
      DataParityAgree(w1, w2, b, m - 1);
    }
  }

  /** A group's parity is its data parity XOR the bit at the group's own parity position. */
  lemma {:induction false} GroupSplit(w: Word, b: nat, m: nat)
    requires m <= |w|
    ensures GroupParity(w, b, m) == (DataParity(w, b, m) != (Pow2(b) <= m && w[Pow2(b) - 1]))
  {
    if m > 0 {
      GroupSplit(w, b, m - 1);
      Log2OfPow2(b);
      if IsPow2(m) {
        PowerOfTwo(m);
        BitOfPow2(Log2(m), b);
      }
    }
  }

  /** In every codeword each of the k groups holds an even number of ones. */
  lemma EncodedGroupsEven(k: nat, c: nat, b: nat)
    requires b < k
    ensures |EncodeWord(k, c)| == Total(k)
    ensures !GroupParity(EncodeWord(k, c), b, Total(k))
  {
    var dw := DataWord(k, c);
    var w := EncodeWord(k, c);
    Pow2Monotone(b + 1, k);
    Log2OfPow2(b);
    DataParityAgree(w, dw, b, Total(k));
    GroupSplit(w, b, Total(k));
  }

  /** Encode puts the parity bit for bit b (ParityGroup k - 1 - b) at position 2^b, the only
      power of two whose exponent is b, and it holds the XOR of the data bits of the positions
      with bit b set. */
  lemma EncodeParityBit(k: nat, c: nat, b: nat)
    requires b < k
    ensures Pow2(b) <= Total(k) && IsPow2(Pow2(b)) && Log2(Pow2(b)) == b
    ensures |EncodeWord(k, c)| == Total(k)
    ensures EncodeWord(k, c)[Pow2(b) - 1] == DataParity(DataWord(k, c), b, Total(k))
  {
    Pow2Monotone(b + 1, k);
    Log2OfPow2(b);
  }

  /** Flipping position e changes the parity of exactly the groups of the bits set in e. */
  lemma {:induction false} FlipGroupParity(w: Word, e: nat, b: nat, m: nat)
    requires 1 <= e <= |w| && m <= |w|
    ensures GroupParity(w[e - 1 := !w[e - 1]], b, m) == (GroupParity(w, b, m) != (e <= m && Bit(e, b)))
  {
    if m > 0 {
      FlipGroupParity(w, e, b, m - 1);
    }
  }

  /** A word of Total(k) bits in which every group has even parity. */
  predicate IsCodeword(w: Word, k: nat)
  {
    |w| == Total(k) && forall b :: 0 <= b < k ==> !GroupParity(w, b, |w|)
  }

  /** Encode produces codewords. */
  lemma EncodedIsCodeword(k: nat, c: nat)
    ensures IsCodeword(EncodeWord(k, c), k)
  {
    forall b | 0 <= b < k
      ensures !GroupParity(EncodeWord(k, c), b, Total(k))
    {
      EncodedGroupsEven(k, c, b);
    }
  }

  /** The syndrome of a codeword is 0. */
  lemma SyndromeOfCodeword(w: Word, k: nat)
    requires IsCodeword(w, k)
    ensures Syndrome(w, k) == 0
  {
    var s := SyndromeDigits(w, k);
    forall p | 0 <= p < k
      ensures s[p] == Digit(Bit(0, k - 1 - p))
    {
      BitAboveIsZero(0, k - 1 - p);
    }
    ParseRepresents(s, 0);
  }

  /** The syndrome of a codeword whose bit at position e was flipped is e. */
  lemma SyndromeOfFlip(w: Word, k: nat, e: nat)
    requires IsCodeword(w, k) && 1 <= e <= |w|
    ensures Syndrome(w[e - 1 := !w[e - 1]], k) == e
  {
    var v := w[e - 1 := !w[e - 1]];
    var s := SyndromeDigits(v, k);
    forall p | 0 <= p < k
      ensures s[p] == Digit(Bit(e, k - 1 - p))
    {
      FlipGroupParity(w, e, k - 1 - p, |w|);
    }
    ParseRepresents(s, e);
    ModBelow(e, Pow2(k));
  }

  /** Correction leaves a codeword alone and repairs any single flipped bit, parity or data. */
  lemma CorrectSingleError(w: Word, k: nat, e: nat)
    requires IsCodeword(w, k) && 1 <= e <= |w|
    ensures Correct(w, k) == w
    ensures Correct(w[e - 1 := !w[e - 1]], k) == w
  {
    SyndromeOfCodeword(w, k);
    SyndromeOfFlip(w, k, e);
    assert w[e - 1 := !w[e - 1]][e - 1 := w[e - 1]] == w;
  }

  /** The data string holds one digit per data position. */
  lemma {:induction false} DataStringLength(w: Word, m: nat)
    requires m <= |w|
    ensures |DataString(w, m)| == DataCount(m)
  {
    if m > 0 {
      DataStringLength(w, m - 1);
    }
  }

  /** The r-th data position among 1..m of w holds digit r of c. */
  predicate DataBitsOf(w: Word, c: nat, m: nat)
    requires m <= |w|
  {
    forall j :: 0 <= j < m && !IsPow2(j + 1) ==> w[j] == Bit(c, DataCount(j))
  }

  /** Reading the data positions of a word whose data bits are those of c gives the
      digits of c, the r-th data position holding digit r. */
  lemma {:induction false} DataStringDigits(w: Word, c: nat, m: nat)
    requires m <= |w|
    requires DataBitsOf(w, c, m)
    ensures |DataString(w, m)| == DataCount(m) && Represents(DataString(w, m), c)
  {
    DataStringLength(w, m);
    if m > 0 {
      DataStringDigits(w, c, m - 1);
      DataStringStep(w, c, m);
    }
  }

  /** One data position more: its bit goes in front as the next higher digit. */
  lemma DataStringStep(w: Word, c: nat, m: nat)
    requires 1 <= m <= |w|
    requires |DataString(w, m - 1)| == DataCount(m - 1) && Represents(DataString(w, m - 1), c)
    requires !IsPow2(m) ==> w[m - 1] == Bit(c, DataCount(m - 1))
    ensures Represents(DataString(w, m), c)
  {
    if !IsPow2(m) {
      RepresentsPrepend(DataString(w, m - 1), c);
    }
  }

  /** The data read back from a codeword is c modulo 2^(Total(k) - k): the data bits that
      fit, with any higher bits of c dropped. */
  lemma ReadEncoded(k: nat, c: nat)
    ensures Total(k) >= k
    ensures ReadData(EncodeWord(k, c)) == c % Pow2(Total(k) - k)
  {
    var w := EncodeWord(k, c);
    DataStringDigits(w, c, |w|);
    ParseRepresents(DataString(w, |w|), c);
    DataCountTotal(k);
  }

  // ----- Properties of Decode -----

  /** Decoding what Encode produced gives back c modulo 2^(Total(k) - k). */
  lemma DecodeEncode(k: nat, c: nat)
    ensures Total(k) >= k
    ensures DecodeString(k, Render(EncodeWord(k, c))) == Char(c % Pow2(Total(k) - k))
  {
    var w := EncodeWord(k, c);
    ParseRender(w);
    EncodedIsCodeword(k, c);
    SyndromeOfCodeword(w, k);
    ReadEncoded(k, c);
  }

  /** Round trip: a character code that fits the Total(k) - k data bits comes back unchanged. */
  lemma RoundTrip(k: nat, c: nat)
    requires Total(k) >= k && c < Pow2(Total(k) - k)
    ensures DecodeString(k, Render(EncodeWord(k, c))) == Char(c)
  {
    DecodeEncode(k, c);
    ModBelow(c, Pow2(Total(k) - k));
  }

  /** Round trip for the configured width: with k picked for data width n, every code
      below 2^n comes back unchanged. */
  lemma RoundTripWidth(n: nat, k: nat, c: nat)
    requires IsParityCount(n, k) && c < Pow2(n)
    ensures DecodeString(k, Render(EncodeWord(k, c))) == Char(c)
  {
    WidthFits(n, k, c);
    RoundTrip(k, c);
  }

  /** A code below 2^n fits the data positions of the layout chosen for width n. */
  lemma WidthFits(n: nat, k: nat, c: nat)
    requires IsParityCount(n, k) && c < Pow2(n)
    ensures Total(k) >= k && c < Pow2(Total(k) - k)
  {
    ParityCountCapacity(n, k);
    Pow2Monotone(n, Total(k) - k);
  }

  /** Flipping any one character of Encode's output still decodes to the same code. */
  lemma SingleErrorCorrected(k: nat, c: nat, j: nat)
    requires j < Total(k)
    ensures Total(k) >= k
    ensures |Render(EncodeWord(k, c))| == Total(k)
    ensures DecodeString(k, FlipChar(Render(EncodeWord(k, c)), j)) == Char(c % Pow2(Total(k) - k))
  {
    var w := EncodeWord(k, c);
    var e := Total(k) - j;
    var v := w[e - 1 := !w[e - 1]];
    RenderShape(w);
    ParseFlipped(w, j);
    assert Correct(v, k) == w by {
      EncodedIsCodeword(k, c);
      CorrectSingleError(w, k, e);
    }
    DecodeFromWord(k, FlipChar(Render(w), j), v);
    ReadEncoded(k, c);
  }

  /** Decode of a string that is not too long is the data of the corrected reading. */
  lemma DecodeFromWord(k: nat, s: string, w: Word)
    requires |s| <= Total(k) && Parse(s, Total(k)) == w
    ensures |w| == Total(k)
    ensures DecodeString(k, s) == Char(ReadData(Correct(w, k)))
  {
  }

  /** Decode treats a short string as if it were padded with '0' on the left to Total(k)
      characters. */
  lemma {:induction false} ZeroExtended(k: nat, s: string)
    requires |s| <= Total(k)
    ensures |PadLeft(s, Total(k))| == Total(k)
    ensures DecodeString(k, s) == DecodeString(k, PadLeft(s, Total(k)))
    decreases Total(k) - |s|
  {
    if |s| < Total(k) {
      var t := ['0'] + s;
      assert Parse(t, Total(k)) == Parse(s, Total(k));
      ZeroExtended(k, t);
    }
  }

  /** Whatever string it is given, Decode returns either 'ERROR' or a code below
      2^(Total(k) - k), since it reads Total(k) - k data bits. */
  lemma DecodedBelow(k: nat, s: string)
    ensures Total(k) >= k
    ensures DecodeString(k, s).Char? ==> DecodeString(k, s).code < Pow2(Total(k) - k)
  {
    DataCountTotal(k);
    if |s| <= Total(k) {
      var v := Correct(Parse(s, Total(k)), k);
      DataStringLength(v, |v|);
    }
  }

  /** For seven-bit characters (k = 4), encoding 'a' (97) and decoding gives 'a' back. */
  lemma LowercaseARoundTrip()
    ensures DecodeString(4, Render(EncodeWord(4, 97))) == Char(97)
  {
    assert Total(4) == 15 && Pow2(11) == 2048;
    RoundTrip(4, 97);
  }

  /** For seven-bit characters, 'a' with any one of its fifteen characters flipped still
      decodes to 'a'. */
  lemma LowercaseASingleError(j: nat)
    requires j < 15
    ensures |Render(EncodeWord(4, 97))| == 15
    ensures DecodeString(4, FlipChar(Render(EncodeWord(4, 97)), j)) == Char(97)
  {
    assert Total(4) == 15 && Pow2(11) == 2048;
    SingleErrorCorrected(4, 97, j);
    ModBelow(97, 2048);
  }
}
