# Verified models of CockroachDB's support packages

Dafny models of the CockroachDB packages that sqlfmt carries with it, and proofs of what those packages are for:
keys that sort as the numbers they encode, packed data that behaves as the plain sequence, set or map it stands for,
printers and parsers that undo each other, and messages that survive their wire format. `dafny verify dfyconfig.toml`
checks all of it.

| part of the source | files | central results |
|---|---|---|
| `util/encoding/decimal.go`, the uvarints of `util/encoding/encoding.go` | `Digits`, `Bytes`, `Uvarint`, `Decimals`, `DecimalForm`, `DecimalKey`, `DecimalKeyDecode`, `DecimalCodec`, `NonsortingDecimal` | byte order of keys is numeric order; keys and values decode |
| `util/bitarray/bitarray.go` | `Words`, `BitArrays`, `BitArrayOps`, `BitArrayOrder`, `BitArrayText`, `BitArrayInt` | every operation refines the sequence of bits |
| `util/fast_int_set.go`, `util/fast_int_map.go` | `Bitmaps`, `IntSets`, `Base128`, `IntSetCodec`, `FastIntSet`, `Nibbles`, `FastIntMap` | agreement with a mathematical set and map across the switch of form |
| `util/topk.go` | `TopK` | selection and permutation for any pivots |
| `sql/scanner/scan.go`, `sql/lexbase/encode.go`, `util/stringencoding/string_encoding.go` | `Octets`, `Escapes`, `Scanning`, `Numerals`, `Literals`, `Names`, `Tokens`, `EndTags`, `Readers`, `Scanner`, `Statements`, `SqlText`, `Alphabets`, `Readings` | every token of every input; scanning undoes printing, on all bytes; numbers and operators by maximal munch; the tag matcher is a first-occurrence search; counting statements over a whole text |
| `sql/types/types.go`, `sql/types/oid.go` | `Types`, `TypeFormats`, `TypeReceiver`, `TypeMakers`, `TypeHistory` | which types survive the legacy format; what older descriptors become |
| `util/duration/duration.go` | `Durations`, `DurationMicros` | when normalizing is exact; when comparison follows length |
| `util/unresolved_addr.pb.go` | `Buffers`, `VarintWords`, `AddrFormat`, `AddrRoundTrip`, `UnresolvedAddr` | round trip; unknown fields do not matter |
| `util/ipaddr/ip.go` | `IpText`, `Ipv6Text`, `IpAddr` | accepted texts are exactly those of a grammar; printed addresses are read back |
| `util/pretty/pretty.go`, `document.go`, `util.go` | `PrettyPieces`, `PrettyDocs`, `PrettyUtil`, `PrettyTable`, `PrettyBest`, `PrettyPrinter`, `PrettyLayout`, `PrettyNesting`, `PrettyShapes` | the same words with blanks between them at every width; every line indented by the nesting above its break; when a line is measured rightly; the memoized recursion is the plain one |

`Machine` has the integers of 16, 32 and 64 bits and their conversions, `Slices` what the parsers share about parts of
sequences. `KnownValues` and the tables of `Alphabets` and `TypeHistory` fix what round trips and orders leave open: the bytes
of certain values, the errors for malformed input, and which characters, letters and aliases stand for what.

Code that runs in steps is modelled by methods: classes whose methods update their fields (`FastIntSet`, `FastIntMap`,
`Scanner`, `Receiver`, `UnresolvedAddr`, `BeExec`), loops over arrays that are rewritten in place (digit and mantissa buffers, bit
words, the quickselect range, the 16 bytes of an address). Each is proved to compute a function of its inputs or of the old
state, and the properties are proved about that function. Words are integers below 2 to the 64; Go's operators on them are
defined from their bits and proved to shift, mask and count as the code expects. Signed arithmetic wraps where Go's does.

## Where the source does something else than expected

Each of these is proved as an exact condition, most of them beside a concrete input that fails it.

* Decoding a decimal key moves the trailing zeros of the coefficient into a 32-bit exponent without a check
  (`CanonicalEqual`, `DecodingOverflows`).
* `FastIntSet.CopyFrom` clears a large set it should drop, and leaves a set that is inconsistent (`CopyFrom`,
  `CopyFromForgets`). The greatest int can be added but is never visited, reported by `Next` or encoded
  (`IntSetCodec.RoundTrip`), and adding a range that ends there does not end (`RangeEnds`).
* A dollar sign followed by a rejected tag loses the tag: the position is put back only where the tag runs into the end of
  the input (`RejectedTag`, `RejectedTagConsumed`). A NUL byte has the token id of the end of the input and differs from it
  in text and position alone (`ZeroId`), so the functions that scan a whole text do not see what is behind one (`AllSeen`,
  `NulHidesStatement`).
* The name `experimental_ranges` needs no quotes by the printer's test, and without them it is scanned as `ranges`
  (`RestrictedRoundTrip`, `ExperimentalRangesIsLost`).
* A bit array parsed from text outside ASCII is longer than its digits (`SizedIffAscii`).
* `InternalType.Identical` is neither reflexive, on geo types, nor transitive, on intervals (`IdenticalReflexive`,
  `IdenticalTransitive`). `MakeScalar` accepts pairs of width and object id that do not survive storage (`ScalarSurvives`).
* `Duration.normalize` wraps around near the ends of the range (`NormalizeExact`, `NormalizeWraps`), `Compare` does not
  follow length for mixed signs (`CompareFollowsLength`), and `Encode` never reports the overflow its comment speaks of;
  decoding is exact all the same (`EncodeRoundTrip`).
* `AddMicros` adds nothing for the smallest int64 (`AddMicros`).
* Widths are int16: long lines are measured wrongly at some widths (`RightAtEveryWidth`, `LongText`), and a text of 65536
  characters fits a line of any width (`TextThatAlwaysFits`).
* Lines of an aligned document start where it does only if the line of the cursor has as many tabs as the nesting
  (`AlignedColumn`).
* An array of names cannot do without its contents: versions that know only the fields of the array read other elements
  (`ContentsCanBeDropped`).
* `AlignUnder` without a head says something else beside it than under it (`SaysAlignUnder`).
* Groups and octets of addresses may have any number of leading zeros, where section 2.2 of RFC 4291 has one to four
  hexadecimal digits (`ParsedIffAddress`).

## Model

| member | source | states |
|---|---|---|
| `DecimalKey.KeyOrder` | cockroach/pkg/util/encoding/decimal.go:44-78 | For any two decimals, NaN and infinities included, byte order of the ascending keys is numeric order and of the descending keys its reverse; keys are equal exactly for equal numbers, whatever their scale or the sign of a zero |
| `DecimalKey.KeyOrderOfExtensions` | cockroach/pkg/util/encoding/decimal.go:53-78 | The order survives whatever is appended to the two keys, in either direction, and no key is a proper prefix of another |
| `DecimalForm.FormKeepsValue` | cockroach/pkg/util/encoding/decimal.go:95-147 | Stripping, aligning and pairing the digits does not change the number: the power of one hundred and the base-100 fraction denote the decimal |
| `DecimalForm.FormNormal` | cockroach/pkg/util/encoding/decimal.go:95-147 | The fraction starts and ends with a non-zero base-100 digit, so a number has one form only |
| `DecimalForm.FormOrder` | cockroach/pkg/util/encoding/decimal.go:152-168 | Normal forms compare as the numbers they denote, exponent first and fraction second, and denote equal numbers only when they are equal |
| `DecimalForm.Exponent100` | cockroach/pkg/util/encoding/decimal.go:118-124 | The exponent of one hundred is half of the exponent of ten rounded up, also for negative exponents, where the division of Go truncates |
| `DecimalKey.MantissaOrder` | cockroach/pkg/util/encoding/decimal.go:136-146 | Mantissa bytes sort as the fractions, and no mantissa is a prefix of another because only the last byte is even |
| `DecimalKey.PosPrefixOrder` | cockroach/pkg/util/encoding/decimal.go:178-244 | Tag and exponent of positive numbers sort as the exponents, across small, medium and large ones |
| `DecimalKey.NegPrefixOrder` | cockroach/pkg/util/encoding/decimal.go:178-244 | Tag and exponent of negative numbers sort against the exponents |
| `DecimalKeyDecode.KeyRoundTrip` | cockroach/pkg/util/encoding/decimal.go:257-322 | Decoding a key followed by anything returns exactly what follows and the canonical form of the decimal, ascending or descending |
| `DecimalKeyDecode.CanonicalEqual` | cockroach/pkg/util/encoding/decimal.go:352-387 | What is decoded equals what was encoded if and only if the exponent plus the trailing zeros of the coefficient fits 32 bits, or the number is zero |
| `DecimalKeyDecode.DecodingOverflows` | cockroach/pkg/util/encoding/decimal.go:352-387 | 10 times ten to the largest exponent is decoded as a number with the smallest exponent |
| `DecimalKeyDecode.MantissaAvoidsTerminator` | cockroach/pkg/util/encoding/decimal.go:136-146 | No mantissa byte and no complement of one is the terminator |
| `DecimalKeyDecode.PartsRoundTrip` | cockroach/pkg/util/encoding/decimal.go:397-492 | Exponent, mantissa and rest are recovered from a key of any sign and size of exponent |
| `DecimalKeyDecode.GetDecimalLenCorrect` | cockroach/pkg/util/encoding/decimal.go:325-348 | The length read off a key without decoding it is the length of the key |
| `DecimalCodec.OnesComplement` | cockroach/pkg/util/encoding/complement_safe.go:16-20 | Complements the given part of a buffer in place and leaves the rest alone |
| `DecimalCodec.PairInPlace` | cockroach/pkg/util/encoding/decimal.go:136-146 | Pairs of decimal digits are overwritten from the front by the mantissa bytes of their base-100 digits |
| `DecimalCodec.StripZeros` | cockroach/pkg/util/encoding/decimal.go:113-116 | Lowering the end of the buffer drops exactly the trailing zeros |
| `DecimalCodec.AlignInPlace` | cockroach/pkg/util/encoding/decimal.go:125-134 | The buffer holds the aligned digits: a leading zero for odd exponents, a trailing one for an odd count |
| `DecimalCodec.DecimalEandM` | cockroach/pkg/util/encoding/decimal.go:95-147 | Computes the exponent and the mantissa bytes of the normal form, in the spare capacity it is given or in a buffer of its own |
| `DecimalCodec.EncodeVarExpNumber` | cockroach/pkg/util/encoding/decimal.go:178-200 | Copies the mantissa before it writes tag and exponent, so the key is right when the mantissa is any range of the output buffer itself and the buffer is no longer than the key |
| `DecimalCodec.EncodeSmallNumber` | cockroach/pkg/util/encoding/decimal.go:204-210 | The buffer starts with the key of a number with a negative exponent, also when the mantissa overlaps it |
| `DecimalCodec.EncodeLargeNumber` | cockroach/pkg/util/encoding/decimal.go:214-220 | The buffer starts with the key of a number with an exponent of at least 11, also when the mantissa overlaps it |
| `DecimalCodec.EncodeMediumNumber` | cockroach/pkg/util/encoding/decimal.go:228-244 | The buffer starts with the key of a number with an exponent from 0 to 10, also when the mantissa overlaps it |
| `DecimalCodec.EncodeEandM` | cockroach/pkg/util/encoding/decimal.go:152-168 | Appends the key of an exponent and a mantissa of any size, whatever spare capacity there is |
| `DecimalCodec.EncodeDecimal` | cockroach/pkg/util/encoding/decimal.go:53-78 | Appends exactly the key that the order theorem is about, whatever spare capacity there is |
| `DecimalCodec.FindDecimalTerminator` | cockroach/pkg/util/encoding/decimal.go:390-395 | The first terminator of the buffer, if there is one |
| `DecimalCodec.MakeDecimalFromMandE` | cockroach/pkg/util/encoding/decimal.go:352-387 | Builds the decimal of an exponent and a mantissa, or reports an empty mantissa or a digit out of range |
| `DecimalCodec.DecodeSmallNumber` | cockroach/pkg/util/encoding/decimal.go:397-430 | Splits the key of a number with a negative exponent, all error cases included |
| `DecimalCodec.DecodeMediumNumber` | cockroach/pkg/util/encoding/decimal.go:432-457 | Splits the key of a number whose exponent is in the tag |
| `DecimalCodec.DecodeLargeNumber` | cockroach/pkg/util/encoding/decimal.go:459-492 | Splits the key of a number with a large exponent |
| `DecimalCodec.DecodeDecimal` | cockroach/pkg/util/encoding/decimal.go:257-322 | Computes the decoding that the round trip is about, for every non-empty input |
| `NonsortingDecimal.RoundTrip` | cockroach/pkg/util/encoding/decimal.go:528-705 | Decoding undoes encoding field for field: negative zeros, trailing zeros and exponents included |
| `NonsortingDecimal.SizeBounded` | cockroach/pkg/util/encoding/decimal.go:709-715 | No encoding is longer than the upper bound computed from the number of words |
| `NonsortingDecimal.CoeffWordsValue` | cockroach/pkg/util/encoding/decimal.go:721-744 | The words of a coefficient, least significant first, denote it |
| `NonsortingDecimal.CopyWords` | cockroach/pkg/util/encoding/decimal.go:727-744 | Appends the minimal big-endian bytes of the number the words denote |
| `NonsortingDecimal.EncodeNonsortingDecimal` | cockroach/pkg/util/encoding/decimal.go:528-611 | Appends exactly the encoding that the round trip is about |
| `Uvarint.AscendingOrder` | cockroach/pkg/util/encoding/encoding.go:348-373 | A smaller integer has an encoding that differs from and sorts before that of a greater one, with any suffixes |
| `Uvarint.DescendingOrder` | cockroach/pkg/util/encoding/encoding.go:402-435 | The descending encodings sort in reverse, with any suffixes |
| `Uvarint.AscendingRoundTrip` | cockroach/pkg/util/encoding/encoding.go:475-497 | Decoding undoes encoding and consumes exactly the encoding |
| `Uvarint.DescendingRoundTrip` | cockroach/pkg/util/encoding/encoding.go:501-517 | The same for the descending form, although only the low bytes of the complement are stored |
| `Uvarint.EncLenCorrect` | cockroach/pkg/util/encoding/encoding.go:438-470 | The lengths computed by halving the word are the lengths of the encodings |
| `Uvarint.GetVarintLenCorrect` | cockroach/pkg/util/encoding/encoding.go:284-302 | The first byte of either form tells its length |
| `Uvarint.DecodeUvarintAscending` | cockroach/pkg/util/encoding/encoding.go:475-497 | The loop computes the big-endian value of the announced bytes, or the error for too few or too many |
| `Uvarint.DecodeUvarintDescending` | cockroach/pkg/util/encoding/encoding.go:501-517 | The same for complemented bytes |
| `BitArrayOps.Concat` | cockroach/pkg/util/bitarray/bitarray.go:389-432 | Packed concatenation is concatenation of the bit strings and keeps the zero padding, at every word boundary |
| `BitArrayOps.PlaceRight` | cockroach/pkg/util/bitarray/bitarray.go:408-423 | The loop splits every word of the right side over two words of the result |
| `BitArrayOps.LeftShiftAny` | cockroach/pkg/util/bitarray/bitarray.go:207-255 | Shifting by any int64, the smallest included, is the shift of the bit string that brings in zeros and keeps the length |
| `BitArrayOps.ShiftLeft` | cockroach/pkg/util/bitarray/bitarray.go:220-232 | The two loops of the left shift represent the shifted bit string |
| `BitArrayOps.ShiftRight` | cockroach/pkg/util/bitarray/bitarray.go:233-252 | The two loops of the right shift and the final mask represent the shifted bit string |
| `BitArrayOps.ToWidth` | cockroach/pkg/util/bitarray/bitarray.go:112-140 | Cuts the bit string on the right or extends it with zeros, inside the capacity of the words or by copying |
| `BitArrayOps.Complemented` | cockroach/pkg/util/bitarray/bitarray.go:435-445 | Complements every bit and keeps the unused ones zero |
| `BitArrayOps.Combine` | cockroach/pkg/util/bitarray/bitarray.go:449-475 | Conjunction, disjunction and exclusive disjunction of two arrays of the same size, bit by bit |
| `BitArrayOrder.Compare` | cockroach/pkg/util/bitarray/bitarray.go:478-510 | The result is exactly lexicographic order of the bit strings, a proper prefix being smaller, for any two sizes |
| `BitArrayOrder.Next` | cockroach/pkg/util/bitarray/bitarray.go:550-565 | The bit string followed by a zero |
| `BitArrayOrder.ImmediateSuccessor` | cockroach/pkg/util/bitarray/bitarray.go:548-565 | No bit string lies strictly between a bit string and the same followed by a zero |
| `BitArrayText.Format` | cockroach/pkg/util/bitarray/bitarray.go:268-292 | Prints a one for every bit that is set and a zero for every other, whole words by bytes and the last word bit by bit |
| `BitArrayText.Parse` | cockroach/pkg/util/bitarray/bitarray.go:318-386 | Parses binary text and hexadecimal text into a valid array with the bits of the digits, and zeros behind them where characters take several bytes |
| `BitArrayText.SizedIffAscii` | cockroach/pkg/util/bitarray/bitarray.go:318-386 | The array has exactly the bits of the digits if and only if the text is ASCII |
| `BitArrayText.PackDigits` | cockroach/pkg/util/bitarray/bitarray.go:329-386 | The loop of either parser packs its digits into the words from the left |
| `BitArrayText.ParseFormat` | cockroach/pkg/util/bitarray/bitarray.go:268-354 | Parsing the printed text gives the bit string back |
| `BitArrayText.FormatThenParse` | cockroach/pkg/util/bitarray/bitarray.go:268-354 | Printing a valid array and parsing the text gives an array with the same words and the same count of last bits |
| `BitArrayText.FormatParse` | cockroach/pkg/util/bitarray/bitarray.go:268-354 | Printing what was parsed from zeros and ones gives the text back |
| `BitArrayText.HexIsBinary` | cockroach/pkg/util/bitarray/bitarray.go:329-386 | Parsing hexadecimal text, marked by either x, equals parsing the binary text of its nibbles, whatever other characters there are |
| `BitArrayText.NibbleTable` | cockroach/pkg/util/bitarray/bitarray.go:355-372 | A hexadecimal digit stands for its place in one of two tables, and any other character for zero |
| `BitArrayText.ContentsDetermineWords` | cockroach/pkg/util/bitarray/bitarray.go:40-82 | Valid arrays with the same bit string have the same words: the representation is unique up to spare capacity |
| `BitArrayInt.MakeBitArrayFromInt64` | cockroach/pkg/util/bitarray/bitarray.go:155-183 | For every width of the array and every width of the value, however far its shift counts wrap: the low bits of the integer stand on the right, its sign is extended to the left, or they are cut to the size of the array |
| `BitArrayInt.AsInt64` | cockroach/pkg/util/bitarray/bitarray.go:187-201 | The value combined from the last two words for every number of bits asked for, however far its shift counts wrap: up to 64, the two's complement value of the last bits |
| `BitArrayInt.IntRoundTrip` | cockroach/pkg/util/bitarray/bitarray.go:155-201 | An integer of w bits comes out of the last w bits of any array it was made into |
| `BitArrays.SizesForBitLen` | cockroach/pkg/util/bitarray/bitarray.go:307-315 | The number of words and the bits used in the last one add up to the length |
| `BitArrays.MakeZeroBitArray` | cockroach/pkg/util/bitarray/bitarray.go:104-107 | A valid array of zeros of the given length |
| `FastIntSets.FastIntSet.constructor` | cockroach/pkg/util/fast_int_set.go:27-54 | A new set is consistent and empty |
| `FastIntSets.FastIntSet.Add` | cockroach/pkg/util/fast_int_set.go:81-92 | Adds the element to the mathematical set; the large set appears exactly when the element does not fit the bitmap |
| `FastIntSets.FastIntSet.AddRange` | cockroach/pkg/util/fast_int_set.go:98-110 | Adds exactly the elements of the range, in the bitmap or one by one; fails for an empty one |
| `FastIntSets.RangeEnds` | cockroach/pkg/util/fast_int_set.go:98-110 | Counting up from an int passes the end of the range if and only if the end is not the greatest int: beyond it the counter wraps and the loop does not end |
| `FastIntSets.FastIntSet.Remove` | cockroach/pkg/util/fast_int_set.go:113-120 | Removes the element from the mathematical set |
| `FastIntSets.FastIntSet.Contains` | cockroach/pkg/util/fast_int_set.go:123-131 | Membership, decided by the bitmap or by the large set |
| `FastIntSets.FastIntSet.Empty` | cockroach/pkg/util/fast_int_set.go:134-136 | Whether the mathematical set is empty |
| `FastIntSets.FastIntSet.Len` | cockroach/pkg/util/fast_int_set.go:139-144 | Cardinality: the population counts, or the size of the large set |
| `FastIntSets.FastIntSet.Next` | cockroach/pkg/util/fast_int_set.go:148-162 | The least element from a start value on, except that the greatest int is never reported |
| `FastIntSets.FastIntSet.ForEach` | cockroach/pkg/util/fast_int_set.go:165-182 | Visits the elements in increasing order, the greatest int excepted |
| `FastIntSets.FastIntSet.Ordered` | cockroach/pkg/util/fast_int_set.go:185-197 | All elements in increasing order |
| `FastIntSets.FastIntSet.Copy` | cockroach/pkg/util/fast_int_set.go:200-208 | A fresh set with the same elements |
| `FastIntSets.FastIntSet.CopyFrom` | cockroach/pkg/util/fast_int_set.go:212-224 | The receiver equals the other set and is consistent if and only if it had no large set, gets one, or gets the empty set |
| `FastIntSets.CopyFromForgets` | cockroach/pkg/util/fast_int_set.go:212-224 | After four calls a set has length zero and contains 1 |
| `FastIntSets.FastIntSet.UnionWith` | cockroach/pkg/util/fast_int_set.go:227-244 | Union of the mathematical sets, in any combination of the two forms, also with itself |
| `FastIntSets.FastIntSet.IntersectionWith` | cockroach/pkg/util/fast_int_set.go:254-265 | Intersection of the mathematical sets |
| `FastIntSets.FastIntSet.DifferenceWith` | cockroach/pkg/util/fast_int_set.go:286-293 | Difference of the mathematical sets |
| `FastIntSets.FastIntSet.Union` | cockroach/pkg/util/fast_int_set.go:247-251 | A fresh union; the operands are unchanged |
| `FastIntSets.FastIntSet.Intersection` | cockroach/pkg/util/fast_int_set.go:268-272 | A fresh intersection; the operands are unchanged |
| `FastIntSets.FastIntSet.Difference` | cockroach/pkg/util/fast_int_set.go:296-300 | A fresh difference; the operands are unchanged |
| `FastIntSets.FastIntSet.Intersects` | cockroach/pkg/util/fast_int_set.go:275-283 | Whether the mathematical sets have a common element |
| `FastIntSets.FastIntSet.Equals` | cockroach/pkg/util/fast_int_set.go:303-314 | Equality of the mathematical sets, whatever forms they have |
| `FastIntSets.FastIntSet.SubsetOf` | cockroach/pkg/util/fast_int_set.go:317-326 | Inclusion of the mathematical sets |
| `FastIntSets.FastIntSet.Encode` | cockroach/pkg/util/fast_int_set.go:338-361 | Fails exactly for sets with a negative element; otherwise writes a bitmap or a size and the elements |
| `FastIntSets.FastIntSet.Decode` | cockroach/pkg/util/fast_int_set.go:365-390 | Rebuilds the set that the bytes mean and returns what follows; says what is left in the receiver after an error |
| `FastIntSets.FastIntSet.ToLarge` | cockroach/pkg/util/fast_int_set.go:56-65 | The elements collected by Next are all elements |
| `FastIntSets.FastIntSet.FitsInSmall` | cockroach/pkg/util/fast_int_set.go:69-76 | Whether the bitmap alone has all elements |
| `IntSetCodec.RoundTrip` | cockroach/pkg/util/fast_int_set.go:338-390 | Decoding what was encoded, followed by anything, rebuilds the set and leaves what follows if and only if the greatest int is not an element |
| `Bitmaps.SetElements` | cockroach/pkg/util/fast_int_set.go:400-414 | Setting and clearing a bit adds and removes one element |
| `Bitmaps.SetRangeElements` | cockroach/pkg/util/fast_int_set.go:416-429 | The masks add exactly the elements of the range, within a word and across the two |
| `Bitmaps.CombinedElements` | cockroach/pkg/util/fast_int_set.go:431-448 | The word operations are union, intersection and difference |
| `Bitmaps.IntersectsElements` | cockroach/pkg/util/fast_int_set.go:441-443 | The test finds a common element exactly when there is one |
| `Bitmaps.SubsetOfElements` | cockroach/pkg/util/fast_int_set.go:450-452 | The test is inclusion |
| `Bitmaps.SameElements` | cockroach/pkg/util/fast_int_set.go:303-306 | Bitmaps with the same elements are equal |
| `Bitmaps.CountElements` | cockroach/pkg/util/fast_int_set.go:454-456 | The population counts add up to the number of elements |
| `Bitmaps.NextElement` | cockroach/pkg/util/fast_int_set.go:458-471 | Shifting and counting zeros finds the least element from a start on |
| `Base128.ReadPut` | cockroach/pkg/util/fast_int_set.go:345-389 | Reading a base-128 varint undoes writing it and leaves exactly what follows, from any number of bytes already read |
| `IntSets.AscendingSorted` | cockroach/pkg/util/fast_int_set.go:185-197 | The order in which elements are visited is strictly increasing |
| `IntSets.AscendingMembers` | cockroach/pkg/util/fast_int_set.go:185-197 | The visited elements are those of the set |
| `FastIntMaps.FastIntMap.constructor` | cockroach/pkg/util/fast_int_map.go:22-33 | A new map is valid and empty |
| `FastIntMaps.FastIntMap.Set` | cockroach/pkg/util/fast_int_map.go:48-58 | Updates the mathematical map; the large form appears exactly when key or value does not fit |
| `FastIntMaps.FastIntMap.Unset` | cockroach/pkg/util/fast_int_map.go:61-69 | Removes the key from the mathematical map and keeps the form |
| `FastIntMaps.FastIntMap.Get` | cockroach/pkg/util/fast_int_map.go:73-85 | The value of a mapped key, or -1 and false |
| `FastIntMaps.FastIntMap.GetDefault` | cockroach/pkg/util/fast_int_map.go:89-95 | The value of a mapped key, or 0 |
| `FastIntMaps.FastIntMap.Len` | cockroach/pkg/util/fast_int_map.go:98-117 | The number of keys, by shifts, mask and population count |
| `FastIntMaps.FastIntMap.MaxKey` | cockroach/pkg/util/fast_int_map.go:121-146 | The greatest key, from the leading zeros of the highest word in use |
| `FastIntMaps.FastIntMap.MaxValue` | cockroach/pkg/util/fast_int_map.go:150-183 | The greatest value, looking no further than the highest group in use |
| `FastIntMaps.FastIntMap.ForEach` | cockroach/pkg/util/fast_int_map.go:187-199 | Hands every pair to the callback exactly once |
| `FastIntMaps.FastIntMap.Empty` | cockroach/pkg/util/fast_int_map.go:31-33 | Whether the mathematical map is empty |
| `FastIntMaps.FastIntMap.Copy` | cockroach/pkg/util/fast_int_map.go:36-45 | A fresh map with the same pairs |
| `FastIntMaps.FastIntMap.SetSmallVal` | cockroach/pkg/util/fast_int_map.go:270-276 | Clearing and setting a group changes the map at one key alone |
| `FastIntMaps.FastIntMap.GetSmallVal` | cockroach/pkg/util/fast_int_map.go:264-268 | Shift and mask read the value of a key |
| `FastIntMaps.FastIntMap.ToLarge` | cockroach/pkg/util/fast_int_map.go:278-287 | The hash map has the pairs of the words |
| `Nibbles.PutGroupNibble` | cockroach/pkg/util/fast_int_map.go:270-276 | Writing a group changes that group alone |
| `Nibbles.PopcountOfGroups` | cockroach/pkg/util/fast_int_map.go:98-117 | Folding each group into its low bit, masking and counting gives the number of groups in use |
| `Nibbles.HighestNibble` | cockroach/pkg/util/fast_int_map.go:121-146 | The leading zeros of a word give its highest group in use |
| `TopK.MoveTopKToFront` | cockroach/pkg/util/topk.go:94-101 | Permutes the array so that no element from place k on is less than one before it, for any strict weak order |
| `TopK.MoveRange` | cockroach/pkg/util/topk.go:21-89 | The same within a range for any choice of pivots: it ends, permutes the range only, and selects |
| `TopK.Partition` | cockroach/pkg/util/topk.go:37-55 | The elements up to mid are no greater than the pivot and those behind it are greater |
| `TopK.SplitEqual` | cockroach/pkg/util/topk.go:74-84 | The elements before l are less than the pivot and those from l on are not |
| `TopK.GatherEqual` | cockroach/pkg/util/topk.go:71-84 | The second partition, with the pivot moved to the back |
| `Scanner.Scanner.Scan` | cockroach/pkg/sql/scanner/scan.go:120-428 | The token at the next position that is neither blank nor comment, for every input: id, text, value and end of strings, literals, numbers, placeholders, names, operators and the end of the input, and every error |
| `Tokens.Progress` | cockroach/pkg/sql/scanner/scan.go:120-428 | Every token but the end of the input takes something of it and none more than there is, so scanning to the end ends |
| `Tokens.ZeroId` | cockroach/pkg/sql/scanner/scan.go:120-428 | The end of the input and a NUL byte have the id 0 and no other token has; text and position tell the two apart |
| `Scanner.Scanner.ScanString` | cockroach/pkg/sql/scanner/scan.go:829-926 | The text between quotes, with doubled quotes halved, escapes replaced where they are allowed and adjacent strings joined, normalized when it is an identifier; an error for a bad escape, for text that must be UTF-8 and is not, and for a string without an end |
| `Scanner.Scanner.CollectString` | cockroach/pkg/sql/scanner/scan.go:829-911 | The loop that collects the pieces between doubled quotes and backslashes computes the text and its end |
| `Scanner.Scanner.ReplaceEscape` | cockroach/pkg/sql/scanner/scan.go:868-900 | An escape is replaced by its byte or by the bytes of its character, and the position is right behind it also where an upper-case X was rewritten |
| `Scanner.Scanner.ScanHexString` | cockroach/pkg/sql/scanner/scan.go:734-788 | The bytes of the pairs of digits, over adjacent literals; an error for any other character and for an odd number of digits |
| `Scanner.Scanner.CollectHex` | cockroach/pkg/sql/scanner/scan.go:734-780 | The loop keeps half a byte between two digits, whichever literals they stand in |
| `Scanner.Scanner.ScanBitString` | cockroach/pkg/sql/scanner/scan.go:791-824 | The zeros and ones up to the closing quote, or an error that names the first other character |
| `Tokens.HexRoundTrip` | cockroach/pkg/sql/scanner/scan.go:734-788 | Bytes printed in hexadecimal of either case come back anywhere in the input where it does not go on with the literal |
| `Scanner.Scanner.ScanNumber` | cockroach/pkg/sql/scanner/scan.go:618-714 | Text and kind of the number without its leading zeros, or one of the three errors |
| `Scanner.Scanner.ReadNumeral` | cockroach/pkg/sql/scanner/scan.go:618-684 | The loop over the three flags stops at the end of the numeral, or at what makes it none |
| `Numerals.Longest` | cockroach/pkg/sql/scanner/scan.go:618-684 | No longer integer or float starts at the same place, but for one that ends with the first of two dots |
| `Numerals.NumeralIs` | cockroach/pkg/sql/scanner/scan.go:618-684 | What is taken for an integer or a float is one: digits, hexadecimal digits behind 0x, digits around a dot, an exponent of at least one digit |
| `Numerals.WhenBadExponent` | cockroach/pkg/sql/scanner/scan.go:664-680 | The error for a float comes exactly when a mantissa is followed by an e and, behind an optional sign, by no digit |
| `Numerals.WhenBadHex` | cockroach/pkg/sql/scanner/scan.go:629-637 | Outside hexadecimal numbers the error for one comes exactly when an integer or a float is followed by an x |
| `Scanner.Scanner.ScanPlaceholder` | cockroach/pkg/sql/scanner/scan.go:716-731 | The digits behind a dollar sign and the index they denote, or the error for a number beyond 64 bits or for an index out of range |
| `Tokens.PlaceholderRoundTrip` | cockroach/pkg/sql/sem/tree/expr.go:753-767 | A printed placeholder is read back as the index one below its number exactly from 1 to 65536, and is an error otherwise |
| `Scanner.Scanner.ScanIdent` | cockroach/pkg/sql/scanner/scan.go:536-616 | The whole name in lower case or normalized, and its id |
| `Names.ClassifyName` | cockroach/pkg/sql/scanner/scan.go:589-616 | The id is that of the name, but a prefix is dropped exactly in front of the one keyword that is allowed it |
| `Names.CaseDoesNotMatter` | cockroach/pkg/sql/scanner/scan.go:565-588 | Two ASCII names become one text if and only if they are of one length and differ in nothing but the case of letters, and then they are the same token |
| `Names.LowerLetters` | cockroach/pkg/sql/scanner/scan.go:570-580 | Letter k of the upper-case alphabet becomes letter k of the lower-case one, and every other character stays |
| `Names.FoldedLetters` | cockroach/pkg/sql/scanner/scan.go:565-588 | What an ASCII name is read as has the same letters, none of them in upper case |
| `Names.BareIffRead` | cockroach/pkg/sql/lexbase/encode.go:54-64 | What is printed without quotes, reserved words apart, is exactly what the scanner reads as a name and leaves as it is |
| `Octets.HexValueTable` | cockroach/pkg/sql/lexbase/predicates.go:33-38 | A hexadecimal digit has value v if and only if it stands at place v of one of two tables |
| `Octets.NameTable` | cockroach/pkg/sql/lexbase/predicates.go:100-110 | The characters of names are the letters of two alphabets, digits, underscore, dollar sign and all bytes from 128 on |
| `Alphabets.BlankTable` | cockroach/pkg/sql/scanner/scan.go:453-476 | Blanks and the newline are the codes 9, 10, 12, 13 and 32 |
| `Alphabets.TagTable` | cockroach/pkg/sql/scanner/scan.go:978-982 | Tags are made of letters, digits, underscores and bytes from 128 on |
| `Alphabets.MarkTable` | cockroach/pkg/sql/scanner/scan.go:624-673 | The marks of hexadecimal numbers, exponents and signs by tables |
| `Alphabets.LiteralTable` | cockroach/pkg/sql/scanner/scan.go:165-220 | A quote behind one of six letters makes a literal |
| `Alphabets.EscapeTable` | cockroach/pkg/sql/scanner/scan.go:872-875 | The letters that start an escape by a table |
| `Alphabets.LetterPrinted` | cockroach/pkg/util/stringencoding/string_encoding.go:42-58 | The printers have a letter for what the scanner has one for, apart from BEL and VT |
| `Alphabets.CommentTable` | cockroach/pkg/sql/scanner/scan.go:479-534 | A comment is there if and only if the input goes on with one of two pairs of characters, and only a block comment can lack an end |
| `Readings.StringsJoin` | cockroach/pkg/sql/scanner/scan.go:836-860 | Two quoted strings with blanks in between are read as one, of both texts, if and only if there is a newline among the blanks; otherwise the first ends where the second starts |
| `Readings.OtherEscapes` | cockroach/pkg/sql/scanner/scan.go:868-905 | A backslash in front of a character outside the table is dropped and the character stays |
| `Readings.BitRoundTrip` | cockroach/pkg/sql/scanner/scan.go:791-824 | Zeros and ones printed as a literal are read back anywhere in the input where it does not go on with the literal |
| `Readings.IntegerRoundTrip` | cockroach/pkg/sql/scanner/scan.go:618-713 | A printed number is read as an ICONST of its digits, whatever zeros are in front of them |
| `Readings.FloatRead` | cockroach/pkg/sql/scanner/scan.go:618-713 | A text that is a float as a whole is read as one FCONST |
| `Readings.HexNumberRead` | cockroach/pkg/sql/scanner/scan.go:618-713 | A hexadecimal number as a whole is an ICONST and keeps its mark and its zeros |
| `Readings.DotsStay` | cockroach/pkg/sql/scanner/scan.go:645-660 | A number never ends between two dots |
| `Tokens.StrippedValue` | cockroach/pkg/sql/scanner/scan.go:695-702 | What is left of a decimal number has the value of its digits and no leading zero |
| `Scanner.Scanner.ScanOperator` | cockroach/pkg/sql/scanner/scan.go:208-414 | The branches over the next characters find the longest operator there is, its id and its end |
| `Tokens.OperatorId` | cockroach/pkg/sql/scanner/scan.go:208-414 | An operator of two or three characters has an id that no character has, and a single character is its own |
| `Tokens.SpellingRead` | cockroach/pkg/sql/scanner/scan.go:208-414 | Every operator is read back from its spelling in a table by names |
| `Tokens.MaximalMunch` | cockroach/pkg/sql/scanner/scan.go:208-414 | What is found is spelled so, and no operator that the input goes on with is longer |
| `Tokens.OtherSpelling` | cockroach/pkg/sql/scanner/scan.go:264-280 | Not equal has a second spelling |
| `Scanning.BlockEndIff` | cockroach/pkg/sql/scanner/scan.go:486-519 | A block comment ends at the first position where as many comments have been closed as opened, counted over the marks from left to right, if and only if it ends at all |
| `Scanning.CommentedOut` | cockroach/pkg/sql/scanner/scan.go:486-519 | A comment can be commented out |
| `Scanning.LineEndIff` | cockroach/pkg/sql/scanner/scan.go:522-533 | A line comment ends behind the first newline, or with the input |
| `Scanner.Scanner.ScanDollarQuotedString` | cockroach/pkg/sql/scanner/scan.go:930-1003 | The text up to the first later occurrence of the start tag; an error when it is not UTF-8 or has no end |
| `Scanner.Scanner.CollectDollar` | cockroach/pkg/sql/scanner/scan.go:930-993 | The incremental matcher for the end tag misses no occurrence and finds no other |
| `Scanner.Scanner.MatchEndTag` | cockroach/pkg/sql/scanner/scan.go:943-990 | One character of the incremental matcher |
| `Scanning.DollarRoundTrip` | cockroach/pkg/sql/scanner/scan.go:930-1003 | A body between delimiters is found exactly when the delimiter does not occur earlier, be it by overlapping its own end |
| `EndTags.RejectedTag` | cockroach/pkg/sql/scanner/scan.go:930-1003 | A dollar sign that starts no string leaves the position right behind it if and only if no tag character follows or the tag reaches the end of the input |
| `EndTags.RejectedTagConsumed` | cockroach/pkg/sql/scanner/scan.go:976-981 | In "$a b" the character after the dollar sign is lost |
| `Scanner.Scanner.SkipWhitespace` | cockroach/pkg/sql/scanner/scan.go:453-476 | Ends where the next token starts, or at a comment that never ends |
| `Scanner.Scanner.ScanComment` | cockroach/pkg/sql/scanner/scan.go:479-534 | Skips one comment, block comments nested, and leaves the position alone when there is none |
| `Scanner.Scanner.Next` | cockroach/pkg/sql/scanner/scan.go:445-451 | The next character, or the end of the input |
| `Statements.HasMultipleStatements` | cockroach/pkg/sql/scanner/scan.go:1005-1050 | Whether the tokens that are seen make more than one statement between semicolons, or the first error among the first two statements |
| `Statements.ScanOne` | cockroach/pkg/sql/scanner/scan.go:1027-1050 | The next statement: nothing is left, or its first error, or the scanner stands right behind its semicolon |
| `Statements.LastLexicalToken` | cockroach/pkg/sql/scanner/scan.go:1052-1065 | The id of the last token that is seen, or that there is none |
| `Statements.AllSeen` | cockroach/pkg/sql/scanner/scan.go:1027-1065 | In a text without NUL bytes all tokens up to its end are seen |
| `Statements.SeveralIff` | cockroach/pkg/sql/scanner/scan.go:1007-1050 | There is more than one statement if and only if there are tokens on both sides of a semicolon |
| `Statements.VerdictWithoutError` | cockroach/pkg/sql/scanner/scan.go:1007-1050 | Without an error the answer is whether there are tokens on both sides of a semicolon |
| `Statements.VerdictAtError` | cockroach/pkg/sql/scanner/scan.go:1007-1050 | The first error is reported if and only if at most two statements have begun with it; behind two statements the answer is yes |
| `Statements.NulHidesStatement` | cockroach/pkg/sql/scanner/scan.go:1029-1036 | Of two statements the second is not seen behind a NUL byte |
| `SqlText.EncodeEscapedSQLIdent` | cockroach/pkg/sql/lexbase/encode.go:80-99 | Prints an identifier of any bytes between quotes with its quotes doubled |
| `SqlText.EncodeRestrictedSQLIdent` | cockroach/pkg/sql/lexbase/encode.go:54-64 | Prints bare when asked to, and otherwise bare if and only if the text is not reserved and the scanner leaves it as it is; a reserved UTF-8 text is scanned as an identifier, and an IDENT with the text comes back if and only if, in quotes, it is normalized UTF-8 and, bare, it has no prefix to lose and is no keyword |
| `SqlText.IdentToken` | cockroach/pkg/sql/scanner/scan.go:829-926 | Scanning a printed identifier of any bytes gives one token that ends at the end of the input: an IDENT with the normalized text, or an error when the bytes are not UTF-8 |
| `SqlText.IdentRoundTrip` | cockroach/pkg/sql/lexbase/encode.go:80-99 | Scanning a printed identifier gives an IDENT with its text if and only if its bytes are UTF-8 and normalized, as all ASCII text is |
| `SqlText.RestrictedRoundTrip` | cockroach/pkg/sql/lexbase/encode.go:54-64 | The token of what is printed is an IDENT with the same text if and only if it comes back in this sense, for any set of reserved words and any keywords |
| `SqlText.ExperimentalRangesIsLost` | cockroach/pkg/sql/lexbase/experimental_keywords.go:13-21 | The name experimental_ranges is printed bare and loses its prefix |
| `Scanning.QuoteRoundTrip` | cockroach/pkg/sql/scanner/scan.go:829-926 | Scanning printed text inside a longer input gives the text back and stops behind it if and only if the input does not go on with the string |
| `SqlText.EncodeSQLString` | cockroach/pkg/sql/lexbase/encode.go:123-173 | Prints the text between quotes, or as a literal with escapes that stand for it, or bare if asked to and it may be; only printable ASCII if the text is UTF-8 |
| `SqlText.StringRoundTrip` | cockroach/pkg/sql/lexbase/encode.go:123-173 | A printed string of any bytes is one token anywhere in the input where it does not go on with the string: an SCONST with the same bytes if they are UTF-8, and an error otherwise |
| `Alphabets.PrintableTable` | cockroach/pkg/sql/lexbase/encode.go:136-146 | Printable are the letters, the digits and 33 other characters of a table |
| `Alphabets.BareTable` | cockroach/pkg/sql/lexbase/encode.go:101-106 | A string needs no quotes if and only if it is printable and has none of six characters |
| `SqlText.CharEscaped` | cockroach/pkg/util/stringencoding/string_encoding.go:82-118 | The escape of a character stands for its bytes; at a byte that is no character three bytes are escaped, and the rest of a character that starts among them stays as it is |
| `SqlText.WritesRune` | cockroach/pkg/util/stringencoding/string_encoding.go:112-117 | The scanner reads the \u and \U escapes back as the bytes of the character |
| `Octets.EncodeDecode` | cockroach/pkg/sql/scanner/scan.go:889-895 | Encoding the rune of a well-formed character gives its bytes back |
| `Octets.DecodeEncode` | cockroach/pkg/sql/scanner/scan.go:889-895 | Every valid rune is encoded as a well-formed character that decodes to it, whatever follows |
| `SqlText.EncodeSQLBytes` | cockroach/pkg/sql/lexbase/encode.go:175-215 | Prints bytes as printable ASCII, each as itself, as a letter or as two hexadecimal digits |
| `SqlText.BytesRoundTrip` | cockroach/pkg/sql/lexbase/encode.go:175-215 | A printed byte string of any bytes is a BCONST with the same bytes anywhere in the input where it does not go on with the string |
| `TypeFormats.SurvivesWhenStable` | cockroach/pkg/sql/types/types.go:2029-2344 | A current descriptor comes back from the legacy format identical to itself if and only if it is stable at every level, through arrays, vectors and tuples |
| `TypeFormats.ScalarLevel` | cockroach/pkg/sql/types/types.go:2044-2344 | The same for one level that is no array |
| `TypeFormats.PlainArrayLevel` | cockroach/pkg/sql/types/types.go:2164-2191 | What comes back of an array level, and when it is the same |
| `TypeFormats.VectorContents` | cockroach/pkg/sql/types/types.go:2193-2202 | A vector comes back with the one element type it may have |
| `TypeReceiver.Receiver.DowngradeType` | cockroach/pkg/sql/types/types.go:2282-2344 | The assignments to the receiver compute the downgraded level, or the error and what it leaves in the receiver |
| `TypeReceiver.Receiver.UpgradeType` | cockroach/pkg/sql/types/types.go:2044-2231 | The assignments to the receiver compute the upgraded type for every family, or the error and what it leaves in the receiver |
| `TypeReceiver.Receiver.DowngradeArrayType` | cockroach/pkg/sql/types/types.go:2312-2336 | The fields of the element move into the array; an error leaves the receiver as stated |
| `TypeReceiver.Receiver.UpgradeArrayType` | cockroach/pkg/sql/types/types.go:2164-2191 | An array of an older version gets its contents, and the fields of the element are cleared; an error leaves the receiver as stated |
| `Types.IdenticalReflexive` | cockroach/pkg/sql/types/types.go:1953-2019 | A type is identical to itself if and only if no level has geo metadata without a duration field |
| `Types.GeometryIsNotItself` | cockroach/pkg/sql/types/types.go:1966-1974 | A geometry type is not identical to itself |
| `Types.IdenticalSymmetric` | cockroach/pkg/sql/types/types.go:1953-2019 | Being identical is symmetric |
| `Types.IdenticalTransitive` | cockroach/pkg/sql/types/types.go:1953-2019 | It is transitive through a type in the middle if and only if that type has a duration field where the first has one and hides no geo metadata |
| `Types.IdenticalIsNotTransitive` | cockroach/pkg/sql/types/types.go:1966-1974 | Two interval types are identical to a third and not to each other |
| `TypeMakers.ScalarSurvives` | cockroach/pkg/sql/types/types.go:705-787 | What MakeScalar accepts survives if and only if width and object id match, a name has no width and no empty collation, and it is no geo type |
| `TypeMakers.MismatchedInt` | cockroach/pkg/sql/types/types.go:705-787 | A two-byte integer of 64 bits is accepted and does not survive |
| `TypeMakers.CollatedStringSurvives` | cockroach/pkg/sql/types/types.go:870-876 | A collated string survives unless it is a name with a width or without a locale |
| `TypeMakers.TimeLikeSurvives` | cockroach/pkg/sql/types/types.go:909-1044 | Time types of any precision but -1 survive |
| `TypeMakers.ArraySurvives` | cockroach/pkg/sql/types/types.go:1061-1074 | An array of unknown elements becomes one of strings and survives; any other array survives if and only if its element does, is no array, and an enum element has an array object id of its own |
| `TypeMakers.ArrayOidIsNoVector` | cockroach/pkg/sql/types/oid.go:192-233 | For elements that are no array, no enum and not unknown, the computed object id of the array is neither 0 nor that of a vector |
| `TypeMakers.TupleSurvives` | cockroach/pkg/sql/types/types.go:1081-1101 | A tuple survives if and only if all its fields do |
| `Types.IdenticalIffEqual` | cockroach/pkg/sql/types/types.go:1953-2019 | Two types are identical if and only if they are equal once dimensions, aliases and geo metadata are taken out, and agree in having a duration field, or else have no geo metadata |
| `TypeHistory.IntsUpgrade` | cockroach/pkg/sql/types/types.go:2046-2069 | An old integer becomes the one of n bytes if and only if a table of the old aliases and widths says n bytes |
| `TypeHistory.FloatsUpgrade` | cockroach/pkg/sql/types/types.go:2071-2103 | An old float becomes the one of n bytes if and only if its alias, its width or else the binary digits of its precision say so |
| `TypeHistory.StringsUpgrade` | cockroach/pkg/sql/types/types.go:2126-2147 | An old string becomes the type of a certain object id with its width and locale if and only if the table of aliases has it, and an uncollated one has no locale |
| `TypeHistory.BitsUpgrade` | cockroach/pkg/sql/types/types.go:2149-2159 | An old bit string becomes the type of a certain object id if and only if the table of aliases has it |
| `TypeHistory.TimesUpgrade` | cockroach/pkg/sql/types/types.go:2105-2116 | Old times keep a positive precision as one that is set, and a missing one becomes the default |
| `TypeHistory.IntervalsUpgrade` | cockroach/pkg/sql/types/types.go:2117-2126 | Old intervals get the empty duration field and keep a positive precision as one that is set |
| `TypeHistory.DefaultsUpgrade` | cockroach/pkg/sql/types/types.go:2213-2216 | Families without aliases get their one object id of a table and keep the rest |
| `TypeHistory.NamesUpgrade` | cockroach/pkg/sql/types/types.go:2204-2213 | Old names become strings if and only if they have no width, collated ones exactly when they have a locale |
| `TypeHistory.VectorsUpgrade` | cockroach/pkg/sql/types/types.go:2193-2202 | Old vectors become arrays of two-byte integers or of object ids |
| `TypeHistory.ArrayAsElement` | cockroach/pkg/sql/types/types.go:2161-2191 | An array without contents becomes the array of a type if and only if its element, read from its own fields, becomes the type |
| `TypeHistory.ArraysUpgrade` | cockroach/pkg/sql/types/types.go:2161-2191 | If an old descriptor becomes a type, the array that repeats it becomes the array of that type |
| `TypeHistory.DowngradeWrites` | cockroach/pkg/sql/types/types.go:2282-2344 | What is written today is among what the tables of the old aliases stand for; a float is told by its alias without its width, and an empty locale is none |
| `TypeHistory.ContentsCanBeDropped` | cockroach/pkg/sql/types/types.go:2312-2336 | The array that is written comes back from its own fields, without its contents, if and only if its elements are no names |
| `KnownValues.PrecisionLimits` | cockroach/pkg/sql/types/types.go:705-787 | Times and intervals are made for precisions from 0 to 6 and no others |
| `Durations.NormalizeExact` | cockroach/pkg/util/duration/duration.go:854-926 | Normalizing keeps the length if and only if nothing wraps, and then carries everything over that the months and days have room for |
| `Durations.ModerateMonths` | cockroach/pkg/util/duration/duration.go:854-926 | With months of at most 2 to the 62 nothing wraps, and fewer than 30 days and less than a day of nanoseconds remain |
| `Durations.NormalizeWraps` | cockroach/pkg/util/duration/duration.go:876-887 | The farthest duration back, a nanosecond less, normalizes to positive months |
| `Durations.CompareUniform` | cockroach/pkg/util/duration/duration.go:259-276 | Comparison follows length for all durations whose fields agree in sign, without any bound |
| `Durations.CompareExact` | cockroach/pkg/util/duration/duration.go:259-276 | Comparison follows length for any two durations that normalize without wrapping to a uniform sign, mixed as their fields may be |
| `Durations.CompareFollowsLength` | cockroach/pkg/util/duration/duration.go:259-276 | A duration compares by length with every duration of uniform sign if and only if it normalizes without wrapping to a uniform sign |
| `Durations.MixedSignsCompareGreater` | cockroach/pkg/util/duration/duration.go:259-276 | One month less a day is as long as 29 days and compares greater |
| `Durations.EncodeRoundTrip` | cockroach/pkg/util/duration/duration.go:686-716 | Decoding undoes encoding for all int64 fields, also where the sort key has wrapped |
| `Durations.SortKeyIsLength` | cockroach/pkg/util/duration/duration.go:686-695 | The sort key is the length if and only if the length fits an int64 |
| `DurationMicros.DiffMicros` | cockroach/pkg/util/duration/duration.go:952-980 | The loop over saturated differences ends and returns the exact difference rounded half away from zero, as an int64 |
| `DurationMicros.AddMicros` | cockroach/pkg/util/duration/duration.go:987-1000 | Adds the microseconds exactly for all deltas but the smallest, which adds nothing |
| `DurationMicros.AddThenDiff` | cockroach/pkg/util/duration/duration.go:952-1000 | Adding a delta and taking the difference gives it back if and only if it is not the smallest int64 |
| `DurationMicros.RoundHalfAwayMeans` | cockroach/pkg/util/duration/duration.go:972-979 | The rounded value is the nearest microsecond, and the farther from zero of two |
| `AddrRoundTrip.ParseEncoded` | cockroach/pkg/util/unresolved_addr.pb.go:110-286 | Reading a marshalled message gives it back, whatever was in the receiver |
| `AddrRoundTrip.ForeignFieldsIgnored` | cockroach/pkg/util/unresolved_addr.pb.go:266-286 | Unknown fields behind any input that reads without error, nested groups included, leave the result unchanged |
| `AddrRoundTrip.ConcatenationMerges` | cockroach/pkg/util/unresolved_addr.pb.go:173-286 | Of two concatenated messages the second replaces the fields of the first |
| `AddrRoundTrip.SkipUnknown` | cockroach/pkg/util/unresolved_addr.pb.go:287-364 | Skipping a well-formed field ends exactly behind it, at any depth of open groups |
| `VarintWords.SovCounts` | cockroach/pkg/util/unresolved_addr.pb.go:167-169 | The size formula from the bit length counts the bytes that are written |
| `UnresolvedAddrs.UnresolvedAddr.Size` | cockroach/pkg/util/unresolved_addr.pb.go:154-165 | The size is the length of the encoding |
| `UnresolvedAddrs.UnresolvedAddr.Marshal` | cockroach/pkg/util/unresolved_addr.pb.go:110-118 | A fresh buffer filled with the encoding |
| `UnresolvedAddrs.UnresolvedAddr.MarshalToSizedBuffer` | cockroach/pkg/util/unresolved_addr.pb.go:125-141 | Writing backward fills exactly the last Size() bytes with the encoding and leaves the others alone |
| `UnresolvedAddrs.EncodeVarint` | cockroach/pkg/util/unresolved_addr.pb.go:143-153 | Writes the bytes of a varint right in front of the offset |
| `UnresolvedAddrs.UnresolvedAddr.Unmarshal` | cockroach/pkg/util/unresolved_addr.pb.go:173-286 | Message and error are those of the format, also for input that is malformed or truncated |
| `UnresolvedAddrs.UnresolvedAddr.UnmarshalField` | cockroach/pkg/util/unresolved_addr.pb.go:176-284 | One field: the message with it and where it ends, or the error |
| `UnresolvedAddrs.ReadVarint` | cockroach/pkg/util/unresolved_addr.pb.go:176-196 | The value of at most ten bytes modulo 2 to the 64, and where it ends |
| `UnresolvedAddrs.ReadString` | cockroach/pkg/util/unresolved_addr.pb.go:205-233 | The bytes that a length announces, with every overflow and end of input checked |
| `UnresolvedAddrs.SkipField` | cockroach/pkg/util/unresolved_addr.pb.go:287-364 | The end of a field and of all groups it opens, or the error |
| `KnownValues.DurationUnits` | cockroach/pkg/util/duration/duration.go:26-57 | A nanosecond, a day of 24 hours and a month of 30 days |
| `KnownValues.KeyTags` | cockroach/pkg/util/encoding/decimal.go:178-244 | The tags in front of the exponents of each size, positive and negative, and the complement of a negative mantissa |
| `KnownValues.OneKey` | cockroach/pkg/util/encoding/decimal.go:53-78 | The bytes of the key of 1 |
| `KnownValues.NegativeKey` | cockroach/pkg/util/encoding/decimal.go:53-78 | The bytes of the key of -1.23 |
| `KnownValues.SmallKey` | cockroach/pkg/util/encoding/decimal.go:204-210 | The bytes of the key of 0.001 |
| `KnownValues.LargeKey` | cockroach/pkg/util/encoding/decimal.go:214-220 | The bytes of the key of ten to the 21 |
| `KnownValues.SpecialKeys` | cockroach/pkg/util/encoding/decimal.go:53-78 | The keys of zero, of NaN and of the infinities |
| `KnownValues.BadKeys` | cockroach/pkg/util/encoding/decimal.go:257-322 | The first bytes that no key starts with, and the error for each key that stops behind its first byte |
| `KnownValues.BadMantissas` | cockroach/pkg/util/encoding/decimal.go:352-387 | The errors for no digits and for digits of one hundred and more |
| `KnownValues.VarintExamples` | cockroach/pkg/util/encoding/encoding.go:348-435 | The bytes of integers around the ends of the sizes, ascending and descending |
| `KnownValues.BadVarints` | cockroach/pkg/util/encoding/encoding.go:475-517 | The first bytes that no integer starts with, and those that are cut off |
| `KnownValues.ValueExamples` | cockroach/pkg/util/encoding/decimal.go:528-611 | The bytes of 1, -123 and 0.001 in the form that is not for sorting |
| `KnownValues.Base128Examples` | cockroach/pkg/util/fast_int_set.go:345-361 | The bytes of 1, 127 and 300 |
| `KnownValues.SmallSetExample` | cockroach/pkg/util/fast_int_set.go:338-390 | The bytes 0 and 6 are the set of 1 and 2 |
| `KnownValues.LargeSetExample` | cockroach/pkg/util/fast_int_set.go:338-390 | A set with an element from 64 on is its size and its elements |
| `KnownValues.ReadFails` | cockroach/pkg/util/fast_int_set.go:365-390 | A varint overflows behind ten bytes and is cut off at the end of the input |
| `KnownValues.MessageExample` | cockroach/pkg/util/unresolved_addr.pb.go:125-141 | The bytes of a message |
| `KnownValues.VarintFails` | cockroach/pkg/util/unresolved_addr.pb.go:176-196 | A varint overflows if and only if ten bytes announce another one, and is cut off if and only if fewer do up to the end |
| `KnownValues.BadTags` | cockroach/pkg/util/unresolved_addr.pb.go:173-286 | The errors for an end of a group, field number 0, a field of another wire type, a wire type that does not exist, and a field that is cut off |
| `KnownValues.EscapeLetters` | cockroach/pkg/sql/scanner/scan.go:868-895 | The codes that the letters of escapes stand for |
| `KnownValues.OctalExample` | cockroach/pkg/sql/scanner/scan.go:868-895 | An octal escape |
| `KnownValues.HexExample` | cockroach/pkg/sql/scanner/scan.go:868-895 | A hexadecimal escape by either mark |
| `KnownValues.UnicodeExample` | cockroach/pkg/sql/scanner/scan.go:868-895 | An escape of four digits and its bytes in UTF-8 |
| `KnownValues.RuneEscapes` | cockroach/pkg/util/stringencoding/string_encoding.go:112-117 | Two characters as they are printed: one of two bytes with four digits, one of three with eight |
| `KnownValues.PrefixExamples` | cockroach/pkg/sql/scanner/scan.go:589-600 | The two prefixes that are taken off in front of a keyword |
| `KnownValues.Utf8Examples` | cockroach/pkg/sql/scanner/scan.go:889-895 | The examples of section 7 of RFC 3629, and the replacement character |
| `Words.LsbParity` | cockroach/pkg/util/fast_int_set.go:400-414 | Bit i of a word is the parity of the word divided by 2 to the i |
| `PrettyLayout.PrintedText` | cockroach/pkg/util/pretty/pretty.go:48-301 | Of a document whose alternatives say the same the words are printed in their order and unbroken, with a blank at least for every line and space between them, at every width, with tabs or spaces and under every filter of the keywords |
| `PrettyLayout.WidthsAgree` | cockroach/pkg/util/pretty/pretty.go:48-60 | Two printings at different widths and with different tabs differ in blanks only |
| `PrettyLayout.CalmPrints` | cockroach/pkg/util/pretty/pretty.go:108-187 | A document is printed unless a value is missing in it or it nests by tabs of width 0, where the source panics |
| `PrettyLayout.Pretty` | cockroach/pkg/util/pretty/pretty.go:48-60 | The memoized selection and the writing loop print what the plain recursion selects, for any width of lines and tabs; nothing where the source panics |
| `PrettyLayout.Layout` | cockroach/pkg/util/pretty/pretty.go:267-301 | The loop writes the selected layout piece by piece |
| `PrettyLayout.BeSpreads` | cockroach/pkg/util/pretty/pretty.go:108-301 | Whichever alternatives are selected, the words and gaps of the documents are written |
| `PrettyPieces.SpreadShows` | cockroach/pkg/util/pretty/pretty.go:267-301 | Text that spreads words and gaps shows the words, one behind the other, once its blanks are taken out |
| `PrettyPrinter.BeExec.BeMemo` | cockroach/pkg/util/pretty/pretty.go:108-187 | With both tables in any consistent state, the memoized recursion returns what the plain one does and keeps the tables consistent |
| `PrettyPrinter.BeExec.IDoc` | cockroach/pkg/util/pretty/pretty.go:202-216 | Returns the one node for a list, made if there is none |
| `PrettyPrinter.SameAddress` | cockroach/pkg/util/pretty/pretty.go:202-216 | Addresses of nodes are equal if and only if the lists they stand for are, so the key by address is a key by contents |
| `PrettyPrinter.BeExec.Compute` | cockroach/pkg/util/pretty/pretty.go:120-186 | The switch over the first document computes one step of the plain recursion |
| `PrettyPrinter.BeExec.Better` | cockroach/pkg/util/pretty/pretty.go:237-243 | The second alternative is laid out only when the first does not fit |
| `PrettyBest.FitsAlong` | cockroach/pkg/util/pretty/pretty.go:245-265 | A line fits if and only if it ends softly and no remainder before one of its pieces or at its end is negative, wrapped to 16 bits as they are |
| `PrettyBest.FlatWhenItStays` | cockroach/pkg/util/pretty/pretty.go:237-265 | The flat alternative is taken if and only if its line ends softly and every wrapped remainder along it stays, for any pieces and any column |
| `PrettyBest.RightAtEveryWidth` | cockroach/pkg/util/pretty/pretty.go:245-265 | A line is measured rightly at every width if and only if it ends hard, or is shorter than 2 to the 15 and no width on its way exceeds the whole modulo 2 to the 16, or has two widths on its way that exclude each other |
| `PrettyBest.FitsExactly` | cockroach/pkg/util/pretty/pretty.go:245-265 | While its pieces are short, a line fits if and only if it is no longer than the width up to its first break and that break is not a hard one |
| `PrettyBest.FlatWhenItFits` | cockroach/pkg/util/pretty/pretty.go:237-265 | While its pieces are short, the flat alternative is taken if and only if the line it continues stays within the width |
| `PrettyBest.LongText` | cockroach/pkg/util/pretty/pretty.go:245-265 | On a line of its own a text is measured rightly at every width if and only if its length fits an int16 or wraps to the smallest one |
| `PrettyBest.TextThatAlwaysFits` | cockroach/pkg/util/pretty/pretty.go:245-265 | A text of 65536 characters is taken to fit a line of any width |
| `PrettyDocs.SaysFlatten` | cockroach/pkg/util/pretty/document.go:160-195 | Flattening keeps words and gaps |
| `PrettyDocs.SaysGroup` | cockroach/pkg/util/pretty/document.go:154-158 | Both alternatives of a group have the same words and gaps |
| `PrettyDocs.SaysAlign` | cockroach/pkg/util/pretty/document.go:217-225 | Aligning keeps words and gaps at every column and nesting level |
| `PrettyUtil.SaysFoldMap` | cockroach/pkg/util/pretty/util.go:135-144 | Mapping every item to one with a prefix and folding gives the prefixed items in order |
| `PrettyUtil.SaysFilled` | cockroach/pkg/util/pretty/util.go:62-95 | Folding with a combiner that puts a separator between two documents and skips empty ones joins the others with it |
| `PrettyUtil.SaysStack` | cockroach/pkg/util/pretty/util.go:83-95 | Stacked and filled documents have the words of their parts in order with a gap in between |
| `PrettyUtil.SaysJoin` | cockroach/pkg/util/pretty/util.go:20-34 | Joined documents have the words of their parts with the separator and a gap in between |
| `PrettyUtil.SaysJoinNestedRight` | cockroach/pkg/util/pretty/util.go:44-57 | The same with a gap on both sides when every item after the first is nested |
| `PrettyUtil.SaysJoinNestedOuter` | cockroach/pkg/util/pretty/util.go:175-198 | The same whether or not there is room to move the items to the left, also without any |
| `PrettyUtil.SaysNestUnder` | cockroach/pkg/util/pretty/util.go:103-111 | The nested document follows the head behind a gap |
| `PrettyUtil.SaysAlignUnder` | cockroach/pkg/util/pretty/util.go:115-120 | Aligned beside the head or nested under it, the words and gaps are the same if and only if there is a head |
| `PrettyUtil.SaysJoinGroupAligned` | cockroach/pkg/util/pretty/util.go:98-100 | The head, a gap and then the joined documents |
| `PrettyUtil.SaysBracketDoc` | cockroach/pkg/util/pretty/util.go:147-154 | The brackets around the document |
| `PrettyTable.Table` | cockroach/pkg/util/pretty/util.go:238-254 | The document of the two columns, as wide as the widest label, or of the sections |
| `PrettyTable.SaysTableDoc` | cockroach/pkg/util/pretty/util.go:238-317 | A table of any alignment has the labels and documents of its rows in order with gaps in between, and its two alternatives say the same |
| `PrettyTable.ComputeLeftColumnWidth` | cockroach/pkg/util/pretty/util.go:256-267 | The length of the longest label of a row with a document |
| `PrettyNesting.PrintedAlong` | cockroach/pkg/util/pretty/pretty.go:48-301 | Main result: at every width a document is printed as one that is left when its alternatives are selected, and every break of that is written as a newline and the indentation of the nesting above it, which is computed from the path alone |
| `PrettyNesting.PlainPrinted` | cockroach/pkg/util/pretty/pretty.go:48-301 | A document without alternatives is written as its paths say: words as they are, spaces and padding, and each break with its indentation |
| `PrettyNesting.LaidOutResolved` | cockroach/pkg/util/pretty/pretty.go:108-187 | Whatever is laid out is laid out as documents whose alternatives have been selected, at any cursor and nesting |
| `PrettyNesting.NextTabStop` | cockroach/pkg/util/pretty/pretty.go:135-136 | A step by a tab leads to the next tab stop, which is the first multiple of the width of a tab to the right |
| `PrettyNesting.OneTabForEach` | cockroach/pkg/util/pretty/pretty.go:135-136 | Without spaces on the way there is one tab for every step by one |
| `PrettyNesting.AlignLays` | cockroach/pkg/util/pretty/document.go:210-225 | An aligned document is laid out with its nesting at the cursor |
| `PrettyNesting.AlignedLays` | cockroach/pkg/util/pretty/document.go:210-225 | What an aligned document prints: its breaks lead back to the column of the cursor |
| `PrettyNesting.CursorIsColumn` | cockroach/pkg/util/pretty/pretty.go:108-187 | While no word has a newline or tab and nothing leaves 16 bits, the cursor is the column that the printed text ends in |
| `PrettyNesting.AlignedColumn` | cockroach/pkg/util/pretty/document.go:210-225 | The lines of an aligned document start in the column where it does if and only if the line of the cursor has as many tabs as the nesting |
| `PrettyNesting.FlattenWrites` | cockroach/pkg/util/pretty/document.go:160-195 | A flattened document is written with a space for every line and without soft breaks and padding |
| `PrettyShapes.BrokenResolves` | cockroach/pkg/util/pretty/pretty.go:108-187 | The document with every group broken is among those that alternatives leave |
| `PrettyShapes.NestUnderShows` | cockroach/pkg/util/pretty/util.go:103-111 | Broken, the nested document stands on the next line, one tab further in than the head |
| `PrettyShapes.AlignUnderShows` | cockroach/pkg/util/pretty/util.go:113-120 | Broken, so does what would be aligned |
| `PrettyShapes.AlignedBeside` | cockroach/pkg/util/pretty/util.go:113-120 | Beside the head the nested document is aligned one column behind it |
| `PrettyShapes.BracketShows` | cockroach/pkg/util/pretty/util.go:146-154 | Broken, the brackets stand on lines of their own and what is inside one tab further in |
| `PrettyShapes.JoinShows` | cockroach/pkg/util/pretty/util.go:20-34 | Joined documents stand on lines of their own, each but the last with the separator at its end |
| `PrettyShapes.StackShows` | cockroach/pkg/util/pretty/util.go:83-95 | Stacked or filled documents stand on lines of their own, the empty ones left out |
| `PrettyShapes.JoinNestedRightShows` | cockroach/pkg/util/pretty/util.go:36-57 | Items start on lines of their own behind the separator, and their own lines go one tab further in |
| `PrettyShapes.MovedWhereThereIsRoom` | cockroach/pkg/util/pretty/util.go:175-198 | The separators are moved to the left if and only if the nesting has room for them |
| `PrettyShapes.ItemsStandBelow` | cockroach/pkg/util/pretty/util.go:175-198 | Moved to the left, a separator brings its item back to the nesting of the first one |
| `PrettyShapes.MovedItemAligned` | cockroach/pkg/util/pretty/util.go:175-198 | The lines of such an item are aligned there too |
| `PrettyShapes.RowsStartTogether` | cockroach/pkg/util/pretty/util.go:269-298 | The label with its padding brings every row of a table to the same column, as the padding of a row without a label does |
| `PrettyShapes.RowAligned` | cockroach/pkg/util/pretty/util.go:269-298 | The document of a row is aligned in the column behind the labels |
| `PrettyShapes.LabelStands` | cockroach/pkg/util/pretty/util.go:238-298 | The blanks stand in front of a label aligned to the right and behind one aligned to the left |
| `PrettyShapes.SectionShows` | cockroach/pkg/util/pretty/util.go:300-317 | Without columns the document of a row stands under its label, one tab further in |
| `PrettyTable.EmptyRowLeftOut` | cockroach/pkg/util/pretty/util.go:269-317 | Rows without a document or with nothing in either column make no line |
| `Ipv6Text.ParsedIffAddress` | cockroach/pkg/util/ipaddr/ip.go:109-207 | A text is accepted with certain bytes if and only if it is an address of the grammar that denotes them: left groups, zeros for one ellipsis of at least one group, right groups, an optional dotted tail |
| `Ipv6Text.Complete` | cockroach/pkg/util/ipaddr/ip.go:109-207 | Every address of the grammar is accepted |
| `Ipv6Text.Sound` | cockroach/pkg/util/ipaddr/ip.go:109-207 | Whatever is accepted is an address of the grammar |
| `IpText.OctetsComplete` | cockroach/pkg/util/ipaddr/ip.go:67-91 | Four dotted numbers of at most 255 are accepted and denote their values |
| `IpText.OctetsSound` | cockroach/pkg/util/ipaddr/ip.go:67-91 | Whatever is accepted are four dotted numbers of at most 255 |
| `IpText.ScanComplete` | cockroach/pkg/util/ipaddr/ip.go:214-253 | Digits of a value below the limit are read to their end |
| `IpText.ScanSound` | cockroach/pkg/util/ipaddr/ip.go:214-253 | What is read are all the digits there are, and their value |
| `IpAddr.ParseIPv6` | cockroach/pkg/util/ipaddr/ip.go:109-207 | The parser that fills and shifts a 16-byte array stays in bounds and returns the bytes of the grammar, or null |
| `IpAddr.ParseGroup` | cockroach/pkg/util/ipaddr/ip.go:123-183 | One round of the loop |
| `IpAddr.ExpandEllipsis` | cockroach/pkg/util/ipaddr/ip.go:190-202 | Shifting bytes to the end in place puts zeros at the ellipsis |
| `IpAddr.ParseIPv4` | cockroach/pkg/util/ipaddr/ip.go:67-91 | The 16-byte form of four dotted octets, or null |
| `IpAddr.ParseIP` | cockroach/pkg/util/ipaddr/ip.go:55-65 | The first dot or colon decides which parser reads the text; without either there is no address |
| `IpAddr.MakeIPv4` | cockroach/pkg/util/ipaddr/ip.go:97-105 | The prefix of mapped addresses and the four octets |
| `IpAddr.Dtoi` | cockroach/pkg/util/ipaddr/ip.go:214-226 | A decimal number, the characters it took, and success |
| `IpAddr.Xtoi` | cockroach/pkg/util/ipaddr/ip.go:230-253 | A hexadecimal number, the characters it took, and success |
| `IpText.DigitTable` | cockroach/pkg/util/ipaddr/ip.go:214-253 | A character is a digit of value v, decimal or hexadecimal, if and only if it stands at place v of a table |
| `IpText.DottedRoundTrip` | cockroach/pkg/util/ipaddr/ip.go:67-91 | Four printed numbers of at most 255 are read back |
| `Ipv6Text.GroupsRoundTrip` | cockroach/pkg/util/ipaddr/ip.go:109-207 | Eight numbers of 16 bits printed in hexadecimal of either case are read back, the high byte of each first |
| `IpAddr.Ipv4RoundTrip` | cockroach/pkg/util/ipaddr/ip.go:55-105 | A printed address of four octets is read back behind ten zeros and two bytes of 255 |
| `IpAddr.Ipv6RoundTrip` | cockroach/pkg/util/ipaddr/ip.go:55-207 | A printed address of eight groups is read back |

## Left out

Weaker than the source, by member:

- Scanner.Scanner.Scan: Unicode's normalization form C, `NormalizeName`, the keyword table and what go/constant makes of a literal are parameters; that ASCII text is not normalized, keywords have ids of their own and a normalized name has no upper-case ASCII letter is modelled
- Scanner.Scanner.ReplaceEscape: strconv.UnquoteChar is that of Go 1.16, which makes the replacement character of a surrogate; from Go 1.18 on it refuses surrogates
- SqlText.EncodeRestrictedSQLIdent: the set of reserved words is a parameter
- BitArrayText.Parse: text is a sequence of Unicode characters, so text that is not UTF-8 does not appear
- TypeFormats.SurvivesWhenStable: descriptors are values and not their protobuf bytes; geo metadata is a token, and the metadata of user-defined types is reduced to the array object id
- FastIntSets.FastIntSet.AddRange: ranges up to the greatest int, where the loop of the source does not end, are excluded
- FastIntMaps.FastIntMap.ForEach: the order of pairs in the hash map is unspecified, as in Go
- DecimalKey.KeyOrder: coefficients have fewer than 2 to the 62 digits, which no memory exceeds; beyond that an exponent would not fit its 64 bits
- DurationMicros.DiffMicros: times are nanoseconds without bound whose difference stays within what 64-bit seconds can span
- TopK.MoveTopKToFront: the pivots are arbitrary, so the seed of the generator and the expected number of steps do not appear
- PrettyPrinter.SameAddress: documents are compared by value, where the source compares concatenations, unions and alignments by address; the model may reuse a node where the source makes another for the same list
- UnresolvedAddrs.UnresolvedAddr.Unmarshal: strings and inputs are no longer than the greatest int, as in Go

Not modelled:

- sharing of memory, except where a decimal is encoded into spare capacity and its mantissa overlaps the output; the preallocated buffer of the scanner
- allocation in batches in the pretty printer, and functions of an int16 other than as tables of their values
- the narrowing of token positions to int32
- the word-at-a-time variant of `onesComplement`, which differs from the modelled one by an unsafe cast only
- the panic on signalling NaNs, and the coefficient of an infinite decimal, which the encodings ignore too
- the paths of `ToWidth` that share words with the receiver: the result is a value, and updates through one of two sharing arrays are not visible
- update in place inside a bitmap: the two words are a value that the set replaces as a whole
- `intsets.Sparse` and hash maps, which are the sets and maps of their documented contracts; `bytes.Buffer` and readers, which are byte sequences
- `FromEncodingParts`, which checks nothing: validity is a precondition of the operations; random bit arrays
- `ContentsIntoBuffer` and `String` of the map, `MakeFastIntSet`, which is a sequence of `Add`
- constructors of types that only fill in constants (`MakeBit`, `MakeString`, `MakeDecimal`, `MakeInterval`, `MakeEnum` and their like), `Equivalent`, type names and locales
- floating-point operations on durations, calendar addition and ages, which depend on Go's `time.Date`; printing and parsing of durations
- `EncodeBigInt`, which computes the length without overflow
- descriptors, registration, equality and the other generated messages, which repeat the shape of the modelled one
- the grammar, the syntax tree and its conversion to documents, and sqlfmt's own command line
