/** Binary numerals as the codec writes them: strings of '0' and '1',
    most significant digit first, as Python's bin() and int(s, 2) use them. */
module Binary {

  /** 2 to the power j. */
  function Pow2(j: nat): (r: nat)
    ensures r >= 1
  {
    if j == 0 then 1 else 2 * Pow2(j - 1)
  }

  /** Digit b of x, counting from the least significant digit (b = 0). */
  function Bit(x: nat, b: nat): bool
  {
    if b == 0 then x % 2 == 1 else Bit(x / 2, b - 1)
  }

  /** The character the codec writes for a bit. */
  function Digit(b: bool): char
  {
    if b then '1' else '0'
  }

  predicate IsBinary(s: string)
  {
    forall i :: 0 <= i < |s| ==> s[i] == '0' || s[i] == '1'
  }

  /** Python's bin(d)[2:]: the shortest numeral of d ("0" for zero). */
  function Bin(d: nat): string
  {
    if d < 2 then [Digit(d == 1)] else Bin(d / 2) + [Digit(d % 2 == 1)]
  }

  /** Prepends '0' until the string is at least len characters long. */
  function PadLeft(s: string, len: nat): string
    decreases len - |s|
  {
    if |s| < len then PadLeft(['0'] + s, len) else s
  }

  /** What DecToBin(d, len) returns. */
  function ToBinary(d: nat, len: nat): string
  {
    PadLeft(Bin(d), len)
  }

  /** Every character of s is the digit of x of the matching weight. */
  predicate Represents(s: string, x: nat)
  {
    forall p :: 0 <= p < |s| ==> s[p] == Digit(Bit(x, |s| - 1 - p))
  }

  /** Python's int(s, 2) on a numeral of '0' and '1' (the empty string reads as 0 here;
      Python raises on it, and every caller rules that case out). */
  function ParseBin(s: string): (v: nat)
    ensures v < Pow2(|s|)
  {
    if s == [] then 0 else 2 * ParseBin(s[..|s| - 1]) + (if s[|s| - 1] == '1' then 1 else 0)
  }

  /** DecToBin: bin(dec) left-padded with '0' in a loop (main.py:5-15). */
  method DecToBin(dec: nat, length: nat) returns (binStr: string)
    ensures binStr == ToBinary(dec, length)
  {
    binStr := Bin(dec);
    while |binStr| < length
      invariant PadLeft(binStr, length) == ToBinary(dec, length)
      decreases length - |binStr|
    {
      binStr := ['0'] + binStr;
    }
  }

  lemma {:induction false} Pow2Monotone(a: nat, b: nat)
    requires a <= b
    ensures Pow2(a) <= Pow2(b)
    decreases b - a
  {
    if a < b {
      Pow2Monotone(a + 1, b);
    }
  }

  lemma {:induction false} Pow2AtLeastDouble(j: nat)
    requires j >= 1
    ensures Pow2(j) >= 2 * j
  {
    if j > 1 {
      Pow2AtLeastDouble(j - 1);
    }
  }

  /** A number below 2^b has no digit of weight 2^b. */
  lemma {:induction false} BitAboveIsZero(x: nat, b: nat)
    requires x < Pow2(b)
    ensures !Bit(x, b)
  {
    if b > 0 {
      BitAboveIsZero(x / 2, b - 1);
    }
  }

  /** Digit b of 2^j is set exactly when b == j. */
  lemma {:induction false} BitOfPow2(j: nat, b: nat)
    ensures Bit(Pow2(j), b) <==> j == b
  {
    if j == 0 {
      if b > 0 {
        BitAboveIsZero(0, b - 1);
      }
    } else if b > 0 {
      BitOfPow2(j - 1, b - 1);
    }
  }

  /** bin(d) is the numeral of d, with no leading zero unless d is 0. */
  lemma {:induction false} BinCorrect(d: nat)
    ensures |Bin(d)| >= 1 && Represents(Bin(d), d) && d < Pow2(|Bin(d)|)
    ensures |Bin(d)| == 1 || Pow2(|Bin(d)| - 1) <= d
  {
    if d >= 2 {
      BinCorrect(d / 2);
      var s := Bin(d / 2);
      var r := Bin(d);
      assert r == s + [Digit(d % 2 == 1)];
      forall p | 0 <= p < |r|
        ensures r[p] == Digit(Bit(d, |r| - 1 - p))
      {
        if p < |s| {
          assert r[p] == s[p];
          assert Bit(d, |r| - 1 - p) == Bit(d / 2, |s| - 1 - p);
        }
      }
    }
  }

  /** Putting the next higher digit of x in front of a numeral of x's low digits gives a
      numeral of one more digit. */
  lemma RepresentsPrepend(s: string, x: nat)
    requires Represents(s, x)
    ensures Represents([Digit(Bit(x, |s|))] + s, x)
  {
    var t := [Digit(Bit(x, |s|))] + s;
    forall p | 0 <= p < |t|
      ensures t[p] == Digit(Bit(x, |t| - 1 - p))
    {
      if p > 0 {
        assert t[p] == s[p - 1];
      }
    }
  }

  /** Padding with '0' keeps the value and reaches the requested length. */
  lemma {:induction false} PadLeftCorrect(s: string, x: nat, len: nat)
    requires Represents(s, x) && x < Pow2(|s|)
    ensures Represents(PadLeft(s, len), x) && x < Pow2(|PadLeft(s, len)|)
    ensures |PadLeft(s, len)| == if |s| < len then len else |s|
    decreases len - |s|
  {
    if |s| < len {
      BitAboveIsZero(x, |s|);
      Pow2Monotone(|s|, |s| + 1);
      RepresentsPrepend(s, x);
      PadLeftCorrect(['0'] + s, x, len);
    }
  }

  /** A string whose digits are those of x reads back as x modulo 2^|s|. */
  lemma {:induction false} ParseRepresents(s: string, x: nat)
    requires Represents(s, x)
    ensures ParseBin(s) == x % Pow2(|s|)
  {
    if s != [] {
      var t := s[..|s| - 1];
      forall p | 0 <= p < |t|
        ensures t[p] == Digit(Bit(x / 2, |t| - 1 - p))
      {
        assert t[p] == s[p];
        assert Bit(x, |s| - 1 - p) == Bit(x / 2, |t| - 1 - p);
      }
      ParseRepresents(t, x / 2);
      assert s[|s| - 1] == Digit(x % 2 == 1);
      ModDouble(x, Pow2(|t|));
    }
  }

  /** The characters of DecToBin(dec, length): bin(dec) padded with '0' to at least
      length characters, never truncated, reading back as dec. */
  lemma ToBinaryCorrect(dec: nat, length: nat)
    ensures |ToBinary(dec, length)| == if |Bin(dec)| < length then length else |Bin(dec)|
    ensures Represents(ToBinary(dec, length), dec) && IsBinary(ToBinary(dec, length))
    ensures dec < Pow2(|ToBinary(dec, length)|)
    ensures ParseBin(ToBinary(dec, length)) == dec
  {
    BinCorrect(dec);
    PadLeftCorrect(Bin(dec), dec, length);
    ParseRepresents(ToBinary(dec, length), dec);
    ModBelow(dec, Pow2(|ToBinary(dec, length)|));
  }

  /** A numeral of a number below 2^len is exactly len characters long after padding to len. */
  lemma ToBinaryLength(dec: nat, length: nat)
    requires dec < Pow2(length) && length >= 1
    ensures |ToBinary(dec, length)| == length
  {
    BinCorrect(dec);
    ToBinaryCorrect(dec, length);
    if |Bin(dec)| > length {
      Pow2Monotone(length, |Bin(dec)| - 1);
    }
  }

  lemma ModBelow(x: nat, m: nat)
    requires x < m
    ensures x % m == x
  {
  }

  lemma ModDouble(x: nat, m: nat)
    requires m >= 1
    ensures x % (2 * m) == 2 * ((x / 2) % m) + x % 2
  {
    var q := x / 2;
    var a := q / m;
    var b := q % m;
    assert q == m * a + b;
    assert x == (2 * m) * a + (2 * b + x % 2);
    ModUnique(x, 2 * m, a, 2 * b + x % 2);
  }

  lemma ModUnique(x: int, m: int, a: int, b: int)
    requires m > 0 && 0 <= b < m && x == m * a + b
    ensures x % m == b
  {
    var q := x / m;
    var r := x % m;
    assert x == m * q + r;
    assert m * (a - q) == r - b;
    MulSign(m, a - q);
  }

  lemma MulSign(m: int, t: int)
    requires m > 0
    ensures t >= 1 ==> m * t >= m
    ensures t <= -1 ==> m * t <= -m
  {
  }
}
