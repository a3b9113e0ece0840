/** Driver: a HammingCode for seven-bit characters, used to encode a whole text into a list
    of codewords and to decode such a list back into text. */
module Driver {
  import opened Binary
  import opened Layout
  import opened Codec
  import opened Hamming

  /** What the driver's encoder (k = 4) produces for each character of a text. */
  function EncodeAll(input: string): seq<string>
  {
    seq(|input|, i requires 0 <= i < |input| => Render(EncodeWord(4, input[i] as nat)))
  }

  /** The text the driver appends for one decoded string: the character, or "ERROR". */
  function Text(d: Decoded): string
    requires d.Char? ==> d.code < 0xD800
  {
    match d
    case TooLong => "ERROR"
    case Char(c) => [c as char]
  }

  /** What the driver appends for one received string. */
  function Piece(s: string): string
  {
    DecodedBelow2048(s);
    Text(DecodeString(4, s))
  }

  /** The pieces appended one after another. */
  function Concat(pieces: seq<string>): string
  {
    if pieces == [] then "" else Concat(pieces[..|pieces| - 1]) + pieces[|pieces| - 1]
  }

  /** What the driver appends for each received string. */
  function Pieces(list: seq<string>): seq<string>
  {
    seq(|list|, i requires 0 <= i < |list| => Piece(list[i]))
  }

  /** What the driver's decoder (k = 4) produces for a list of received strings. */
  function DecodeAll(list: seq<string>): string
  {
    Concat(Pieces(list))
  }

  class Driver {
    /** The codec, built for data width 7. */
    const driver: HammingCode

    ghost predicate Valid()
      reads this, driver, driver.bits
    {
      driver.Valid() && driver.k == 4
    }

    /** Builds HammingCode(7), which picks k = 4 parity bits (main.py:109-110). */
    constructor ()
      ensures Valid()
    {
      var code := new HammingCode(7);
      ParityCountSeven(code.k);
      driver := code;
    }

    /** Encodes each character of the text in turn (main.py:151-160). */
    method EncodeString(input: string) returns (arr: seq<string>)
      requires Valid()
      ensures arr == EncodeAll(input)
    {
      arr := [];
      var i := 0;
      while i < |input|
        invariant 0 <= i <= |input|
        invariant arr == EncodeAll(input)[..i]
      {
        var encoded := driver.Encode(input[i] as nat);
        arr := arr + [encoded];
        i := i + 1;
      }
    }

    /** Decodes each string in turn and concatenates what Decode returns (main.py:162-172). */
    method DecodeList(list: seq<string>) returns (output: string)
      requires Valid()
      requires forall i :: 0 <= i < |list| && |list[i]| <= 15 ==> IsBinary(list[i])
      ensures output == DecodeAll(list)
    {
      output := "";
      var i := 0;
      while i < |list|
        invariant 0 <= i <= |list|
        invariant output == Concat(Pieces(list)[..i])
      {
        var decoded := driver.Decode(list[i]);
        DecodedBelow2048(list[i]);
        assert Pieces(list)[..i + 1][..i] == Pieces(list)[..i];
        match decoded {
          case TooLong =>
            output := output + "ERROR";
          case Char(c) =>
            output := output + [c as char];
        }
        i := i + 1;
      }
      assert Pieces(list)[..|list|] == Pieces(list);
    }
  }

  /** With four parity bits the data is eleven bits, so a decoded code is below 2048. */
  lemma DecodedBelow2048(s: string)
    ensures DecodeString(4, s).Char? ==> DecodeString(4, s).code < 2048
  {
    assert Total(4) == 15 && Pow2(11) == 2048;
    DecodedBelow(4, s);
  }

  /** Each codeword is fifteen characters of '0' and '1'. */
  lemma EncodeAllShape(input: string)
    ensures |EncodeAll(input)| == |input|
    ensures forall i :: 0 <= i < |input| ==> |EncodeAll(input)[i]| == 15 && IsBinary(EncodeAll(input)[i])
  {
    assert Total(4) == 15;
    forall i | 0 <= i < |input|
      ensures |EncodeAll(input)[i]| == 15 && IsBinary(EncodeAll(input)[i])
    {
      RenderShape(EncodeWord(4, input[i] as nat));
    }
  }

  /** Concatenating one-character pieces gives back the characters. */
  lemma {:induction false} ConcatSingles(pieces: seq<string>, input: string)
    requires |pieces| == |input|
    requires forall i :: 0 <= i < |pieces| ==> pieces[i] == [input[i]]
    ensures Concat(pieces) == input
  {
    if pieces != [] {
      var n := |pieces| - 1;
      var prefix := pieces[..n];
      assert forall i :: 0 <= i < n ==> prefix[i] == pieces[i];
      ConcatSingles(prefix, input[..n]);
      assert input == input[..n] + [input[n]];
    }
  }

  /** Text whose characters are below 2048 (all of ASCII among them) survives encoding
      and decoding unchanged. */
  lemma DecodeListRoundTrip(input: string)
    requires forall i :: 0 <= i < |input| ==> input[i] as nat < 2048
    ensures DecodeAll(EncodeAll(input)) == input
  {
    assert Total(4) == 15 && Pow2(11) == 2048;
    forall i | 0 <= i < |input|
      ensures Pieces(EncodeAll(input))[i] == [input[i]]
    {
      RoundTrip(4, input[i] as nat);
    }
    ConcatSingles(Pieces(EncodeAll(input)), input);
  }

  /** Flipping one character in each codeword (errs[i] in codeword i) still decodes to the
      original text. */
  lemma DecodeListCorrects(input: string, errs: seq<nat>)
    requires forall i :: 0 <= i < |input| ==> input[i] as nat < 2048
    requires |errs| == |input| && forall i :: 0 <= i < |errs| ==> errs[i] < 15
    ensures DecodeAll(seq(|input|, i requires 0 <= i < |input| => FlipChar(EncodeAll(input)[i], errs[i])))
      == input
  {
    assert Total(4) == 15 && Pow2(11) == 2048;
    EncodeAllShape(input);
    var list := seq(|input|, i requires 0 <= i < |input| => FlipChar(EncodeAll(input)[i], errs[i]));
    forall i | 0 <= i < |input|
      ensures Pieces(list)[i] == [input[i]]
    {
      SingleErrorCorrected(4, input[i] as nat, errs[i]);
      ModBelow(input[i] as nat, Pow2(11));
    }
    ConcatSingles(Pieces(list), input);
  }
}
