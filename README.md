# Hamming codec

A model of the single-error-correcting Hamming codec in `main.py`. It covers:

- `DecToBin`, the left-padded binary numeral;
- `HammingCode`: the constructor that picks the number of parity bits `k` for data width `n` and builds one `HammingBitProp` record per codeword position, and the `Encode` and `Decode` methods;
- the two batch wrappers of `Driver`: `EncodeString` and `DecodeList`.

For `n = 7` the code is Hamming(15, 11).

The model is imperative where the source is:

- `HammingCode` is a class with the fields `k`, `totalBit` and a `bits` array.
- `Encode` and `Decode` work on a `char` buffer with the same loops as the source: popping digits, toggling an `odd` flag, flipping one cell and building strings by prepending.
- Each method is proved against pure specification functions.

Modules:

- `Binary` (`binary.dfy`): `bin()`, `int(s, 2)` on binary numerals, powers of two and the `DecToBin` method.
- `Layout` (`layout.dfy`): the choice of `k` (`IsParityCount`), the record stored for each position (`Entry`, `Table`) and the facts about the table's shape.
- `Codec` (`codec.dfy`): codewords as bit sequences (`Word`, where `w[i - 1]` is position `i`) and what `Encode` and `Decode` compute (`EncodeWord`, `Render`, `Parse`, `Syndrome`, `Correct`, `DecodeString`). Also the properties of the code: every group has even parity, the syndrome locates a single error, the round trip holds, and a single error is corrected.
- `Hamming` (`hamming.dfy`): the class `HammingCode` with its constructor and its methods `Encode` and `Decode`. Each loop of the source is a helper method of its own: `ParityCount` and `BuildTable` for the constructor; `PlaceData`, `SetParity` with its inner scan `GroupParityBit`, and `RenderCode` for `Encode`; `ReadCode`, `Checksums` with its inner scan `GroupCheck`, and `ReadDataBits` for `Decode`. Step lemmas carry the loop bodies.
- `Driver` (`driver.dfy`): the class `Driver` with `EncodeString` and `DecodeList`, plus round-trip and single-error lemmas for whole texts.

Characters are their code points (`ord`). `Encode` takes the code point. `Decode` returns `Char(code)`, or `TooLong` where the source returns the string `'ERROR'`. The model follows the code where it departs from a textbook Hamming codec:

- `Encode` always uses `DecToBin(ord(char), 7)`, whatever `n` is.
- Bits of a code that do not fit the `totalBit - k` data positions are dropped without any signal. So `Decode(Encode(c))` is `c mod 2^(totalBit - k)` (`Codec.DecodeEncode`).
- `Decode` flips the position the syndrome names whenever the syndrome is nonzero. The syndrome never exceeds `totalBit` (`Codec.Syndrome`).
- `Decode` reads all data positions, not just seven of them.

## Model

| member | source | states |
|---|---|---|
| Binary.DecToBin | main.py:5-15 | the result is `bin(dec)` padded on the left with '0' to at least `length` characters (`ToBinary`) |
| Binary.ToBinaryCorrect | main.py:12-15 | `DecToBin(dec, length)` is `max(len(bin(dec)), length)` characters long, so it never truncates; it holds only '0' and '1', its digits are those of `dec` by weight, `dec` is below 2 to the power of its length, and reading it as binary gives back `dec` |
| Binary.ToBinaryLength | main.py:12-15 | for `dec` below `2^length` (and `length >= 1`), `DecToBin(dec, length)` is exactly `length` characters long |
| Binary.BinCorrect | main.py:12 | `bin(d)[2:]` is a numeral of `d` that is at least one digit long, has no leading zero and fits its length |
| Binary.PadLeftCorrect | main.py:13-14 | padding with '0' keeps the value and reaches the requested length |
| Binary.ParseBin | main.py:94 | the value `int(s, 2)` reads is below `2^len(s)` |
| Binary.ParseRepresents | main.py:94 | `int(s, 2)` on the digits of x by weight gives `x mod 2^len(s)` |
| Layout.ParityCountSeven | main.py:27-30 | for `n = 7` the loop stops at `k = 4`, giving `totalBit = 15` and 11 data positions |
| Layout.ParityCountUnique | main.py:27-29 | only one `k >= 1` is the least with `2^k >= n + k + 1` |
| Layout.ParityCountCapacity | main.py:27-30 | the chosen `k` leaves `2^k - 1 - k >= n` data positions, so `totalBit > k` when `n >= 1` |
| Layout.DataCountTotal | main.py:30-39 | among positions `1 .. 2^k - 1` exactly `2^k - 1 - k` are not powers of two |
| Layout.DataCountDouble | main.py:36 | positions strictly between `2^j` and `2^(j+1)` are all data positions |
| Layout.PowerOfTwo | main.py:36 | i is a power of two exactly when `i == 2^Log2(i)` |
| Layout.EntryFacts | main.py:33-40 | the table has `totalBit` records and record `i - 1` is position i's. Its `bin_index` is `DecToBin(i, k)` with exactly k digits. It is a parity record iff i is a power of two. A parity record `2^j` stores group `k - 1 - j`; a data record stores no group |
| Layout.BinIndexDigits | main.py:35 | `DecToBin(i, k)` has k digits, and digit p is '1' iff bit `k - 1 - p` of i is set |
| Layout.ParityEntry | main.py:36-39 | position `2^j` (for `j < k`) lies in the table, is a parity record, and stores `ParityGroup = k - j - 1` |
| Layout.ParityEntryOwnDigit | main.py:35-38 | the parity record at `2^j` has '1' at its own group's digit `k - j - 1` of `bin_index` |
| Layout.CountParityPrefix | main.py:33-40 | the first m records hold `m - DataCount(m)` parity records |
| Layout.ParityEntries | main.py:33-40 | the table holds exactly k parity records |
| Hamming.HammingCode.constructor | main.py:26-40 | `k` is the least `k >= 1` with `2^k >= n + k + 1`, `totalBit = 2^k - 1`, and `bits` is the table `Table(k)`: record `i - 1` is `Entry(k, i)` |
| Hamming.ParityCount | main.py:27-29 | the loop stops at the least `k >= 1` with `2^k >= n + k + 1` |
| Hamming.BuildTable | main.py:30-40 | the new array holds `2^k - 1` records, record `i - 1` being `Entry(k, i)` (the whole `Table(k)`) |
| Hamming.TableStep | main.py:33-39 | while `power` counts the powers of two passed, `i == 2^power` exactly at the parity positions, and the record built there is `Entry(k, i)` with group `k - power - 1` |
| Hamming.HammingCode.Encode | main.py:42-71 | the result is `Render(EncodeWord(k, c))`: `totalBit` characters of '0' and '1' with position 1 last |
| Hamming.HammingCode.PlaceData | main.py:49-55 | data position i receives bit r of c, where i is the r-th data position; every parity position and every position past the digits of c stays '0' |
| Hamming.PlaceDataStep | main.py:52-55 | one iteration pops the digit of weight `2^DataCount(i)` at a data position, or leaves '0' when the digits are used up (the bit is then 0) |
| Hamming.HammingCode.SetParity | main.py:56-67 | after the loop every position holds the codeword's bit: parity position `2^b` holds the XOR of the data bits whose position has bit b set (their `bin_index` digit `k - 1 - b` is '1', ParityGroup `k - 1 - b`), and data positions are unchanged |
| Hamming.HammingCode.GroupParityBit | main.py:57-66 | for group p the scan finds the parity position `2^(k-1-p) - 1` (0-based) and the XOR of the data bits whose `bin_index[p]` is '1' |
| Hamming.ParityScanStep | main.py:59-66 | the record matches `ParityGroup == p` exactly at position `2^(k-1-p)`, and the running XOR toggles exactly at data positions in the group holding '1' |
| Hamming.RenderCode | main.py:68-71 | prepending each cell yields the buffer reversed |
| Hamming.HammingCode.Decode | main.py:73-105 | for any input longer than `totalBit` (whatever its characters and whatever `n`) the result is `TooLong` ('ERROR'), and otherwise it is `DecodeString(k, codings)`: the input read with its last character at position 1, corrected at the syndrome position, data read back |
| Hamming.HammingCode.ReadCode | main.py:82-85 | cell j receives the input's character `len - 1 - j`, and cells past the input stay '0' |
| Hamming.HammingCode.Checksums | main.py:86-93 | the checksum string is `SyndromeDigits`: character p is '1' exactly when the positions whose `bin_index[p]` is '1' hold an odd number of ones |
| Hamming.HammingCode.GroupCheck | main.py:87-93 | the flag is the XOR of all bits, parity and data, at positions whose `bin_index[p]` is '1' |
| Hamming.CheckScanStep | main.py:89-92 | digit p of position i's `bin_index` is '1' iff bit `k - 1 - p` of i is set |
| Hamming.HammingCode.ReadDataBits | main.py:98-102 | the string built holds the data positions' characters, highest position first |
| Codec.Syndrome | main.py:86-94 | the checksum value is at most `totalBit`, so the flip at main.py:96-97 stays in bounds |
| Codec.RenderShape | main.py:68-71 | a rendered codeword has `totalBit` characters of '0' and '1', with position `j + 1` at index `len - 1 - j` |
| Codec.ParseRender | main.py:82-85 | reading back a rendered codeword gives the codeword |
| Codec.ParseFlipped | main.py:82-85 | inverting character j of a rendered word inverts position `len - j` |
| Codec.GroupSplit | main.py:87-93 | the parity of a whole group equals the XOR of its data bits and its own parity bit |
| Codec.EncodedGroupsEven | main.py:56-67 | every one of the k groups of an encoded word has an even number of ones |
| Codec.EncodeParityBit | main.py:56-67 | the parity bit for bit b (ParityGroup `k - 1 - b`) sits at position `2^b` and holds the XOR of the data bits whose position has bit b set |
| Codec.EncodedIsCodeword | main.py:56-67 | every output of `Encode` has even parity in all groups |
| Codec.SyndromeOfCodeword | main.py:86-95 | on a codeword the syndrome is 0, so `Decode` changes nothing |
| Codec.FlipGroupParity | main.py:87-93 | flipping position e changes exactly the parity of the groups whose bit of e is set |
| Codec.SyndromeOfFlip | main.py:86-95 | when one bit of a codeword, at position e, is flipped, the syndrome is e |
| Codec.CorrectSingleError | main.py:94-97 | correction leaves a codeword alone and repairs any one flipped position, parity or data |
| Codec.DataStringLength | main.py:98-102 | the data string has one character per data position |
| Codec.DataStringStep | main.py:101-102 | prepending the next data position's bit extends a numeral of c by its next higher digit |
| Codec.DataStringDigits | main.py:98-102 | when the r-th data position holds bit r of c, the data string is a numeral of c of `DataCount` digits |
| Codec.ReadEncoded | main.py:49-103 | reading back the data of `Encode(c)` gives `c mod 2^(totalBit - k)` |
| Codec.DecodeEncode | main.py:42-105 | `Decode(Encode(c))` is `c mod 2^(totalBit - k)`: the bits that fit, with higher bits dropped |
| Codec.RoundTrip | main.py:42-105 | `Decode(Encode(c)) == c` for `c < 2^(totalBit - k)` |
| Codec.RoundTripWidth | main.py:26-105 | with k chosen for width n, every `c < 2^n` survives `Encode` then `Decode` |
| Codec.WidthFits | main.py:27-30 | a code below `2^n` fits the `totalBit - k` data positions of the layout for width n |
| Codec.SingleErrorCorrected | main.py:42-105 | flipping any one of the `totalBit` characters of `Encode(c)` still decodes to `c mod 2^(totalBit - k)` |
| Codec.ZeroExtended | main.py:82-85 | `Decode` treats a short input as if it were padded with '0' on the left to `totalBit` characters |
| Codec.DecodedBelow | main.py:98-104 | any code `Decode` returns is below `2^(totalBit - k)` |
| Codec.LowercaseARoundTrip | main.py:135-138 | with k = 4, 'a' (97) encodes and decodes back to 'a' |
| Codec.LowercaseASingleError | main.py:135-139 | with k = 4, 'a' with any one of its 15 characters flipped decodes to 'a' |
| Driver.Driver.constructor | main.py:109-110 | the driver's codec is `HammingCode(7)`, with `k = 4` |
| Driver.Driver.EncodeString | main.py:151-160 | the list holds `Encode` of each character in order (`EncodeAll`) |
| Driver.Driver.DecodeList | main.py:162-172 | the output concatenates, in order, the character `Decode` returns for each string, or "ERROR" (`DecodeAll`) |
| Driver.DecodedBelow2048 | main.py:103-104 | with k = 4 a decoded code is below 2048, so `chr` of it is a character |
| Driver.EncodeAllShape | main.py:157-160 | `EncodeString` returns one 15-character binary string per input character |
| Driver.ConcatSingles | main.py:168-171 | appending one-character pieces in order rebuilds the text |
| Driver.DecodeListRoundTrip | main.py:151-172 | `DecodeList(EncodeString(s)) == s` for every text whose characters are below 2048, ASCII included |
| Driver.DecodeListCorrects | main.py:151-172 | with one character flipped in each codeword, `DecodeList` still gives back the text |

## Left out

- Hamming.HammingCode.Decode: for input no longer than `totalBit`, requires every character to be '0' or '1'. The source counts any other character as 0 in the checksum and flips it to '0'. What then happens in `int(..., 2)` depends on Python's parsing rules: surrounding whitespace, a leading sign and single '_' between digits are accepted, and other characters may be accepted (for example a `0b` prefix, or Unicode decimal digits) or make it raise. That behaviour is not modelled. Every call in main.py passes strings produced by `Encode`.
- Hamming.HammingCode.Decode: for input no longer than `totalBit`, requires `totalBit > k`, that is `n >= 1` (see `Layout.ParityCountCapacity`). With `n = 0` there are no data positions and `int('', 2)` raises, while over-long input still returns 'ERROR'; the model covers that over-long case. main.py builds its codec with `n = 7`.
- Driver.Driver.DecodeList: requires binary strings among those of at most 15 characters, for the same reason as `Decode`.
- Hamming.HammingCode.Decode: returns the code point rather than `chr` of it. `chr` raising for codes above 0x10FFFF (possible only for large `n`) is not modelled. The driver, with `k = 4`, converts codes below 2048 to characters.
- Hamming.HammingCode.Encode: takes the code point. `ord` is applied by the caller.
- The `print` in `Decode` (main.py:80) is console output and is left out; only the `'ERROR'` result is modelled.
- `math.pow` is floating point in the source (main.py:28, 30, 36). The model uses exact powers of two; the values involved are small integers.
- `HammingBitProp`'s default field values (main.py:19-22) are not modelled separately: each record is built with its final values at once (`BitProp`, `Entry`).
- The `bits` list that the source grows by appending is an array of the final length, filled in the same order.
- `Driver.AddRandomError` (main.py:112-127) depends on a random source, and `Driver.TestErrorCorrection` (main.py:129-149) and the script at the end of the file only print. They are not part of this model. The one-error case of the test for 'a' is stated for every flip position by `Codec.LowercaseASingleError`.
- No property is stated about two or more bit errors. The code can miscorrect them, and nothing is promised for that case.
