# psio: verified models of the codecs

Dafny 4.11 models of the parts of psio that compute, each proved against a specification of what it
is for. `dafny verify dfyconfig.toml` checks everything.

| part | source | modules |
|---|---|---|
| arithmetic coder for names | `js/src/compress-name.ts` | `NameTables`, `NameCoder`, `NameRoundTrip`, `NameCodes`, `NameTheorems`, `NameLost`, `NameForms`, `NameMethods` |
| LZ4 blocks | `cpp/external/lz4/lz4.c` | `Lz4Format`, `Lz4Search`, `Lz4Compress`, `Lz4Unsafe`, `Lz4Safe`, `Lz4Accepts`, `Lz4SafeMethods` |
| fracpack: packing, unpacking, viewing | `js/src/fracpack.ts` | `FracTypes`, `FracView`, `FracFixedView`, `FracUnpack`, `FracAccept`, `FracExtend`, `FracWriter`, `FracPackTo`, `FracReader`, `FracVectors` |
| mutation of packed data | `js/src/mutation.ts` | `FracSize`, `FracFields`, `FracMutate`, `FracSet`, `FracExpand`, `FracRun`, `FracFootprint`, `FracGet`, `FracCanonical`, `FracMutView`, `FracExamples` |
| pjson wire format | `cpp/conformance/pjson_conformance_driver.cpp`, `js/src/pjson.ts` | `PjsonNumbers`, `Pjson`, `PjsonDecode`, `PjsonRoundTrip`, `PjsonNaNs`, `PjsonGrammar`, `PjsonExamples`, `PjsonWriter`, `PjsonReader`, `PjsonJs`, `PjsonJsDecode`, `PjsonJsReader`, `PjsonJsAccept`, `PjsonAgree` |
| number texts, base 58, number choice | `cpp/conformance/pjson_conformance_driver.cpp` | `Base58`, `Base58Methods`, `NumberText`, `NumberTextMethods`, `FloatFormats`, `FloatWidths`, `FloatWiden`, `FloatSpecials`, `DecimalPick`, `DecimalFound`, `DecimalChoice` |
| binary128 to binary64 | `cpp/external/softfloat/psio_softfloat.h` | `SoftFloat`, `ExactNarrow` |

Shared: `Wrappers`, `ByteStrings` (bytes at a place in a larger string, little-endian numbers),
`Powers`.

## How it is built

Each component has a specification in functions and, where the source works step by step, methods or
classes that do the same steps (arrays written in place, growing buffers, moving positions, nested
loops) and are proved equal to the specification on every input. The properties are lemmas about the
specification, so they hold of the running form.

- **Names.** `NameCode` and `NameOf` are what the two conversions compute. A run is a sequence of
  intervals; a number is compared with an interval through its place in the current window
  (`Point`), which renormalising does not change. The frequency table is a parameter; `ModelIsValid`
  discharges its conditions for the shipped one.
- **LZ4.** A block is a plan of sequences that expand to the source and keep the end rules. The
  compressor is proved to write such a block whatever its hash function does, and the one that its
  search determines: `Picked` and `Ended` say which positions are probed, which candidate is taken and
  how far its match goes, and leave no choice (`SearchIsUnique`). Both decoders are proved to undo every
  legal block. The bounds-checked decoder is also proved to stay within its arrays and to compute
  `SafeDecode` on arbitrary input, and `AcceptsIff` says which input that accepts.
- **Fracpack.** Values whose bytes stand in the slot itself (scalars, and arrays and fixed structs of
  such) and values behind an offset share one scheme of slots and heap parts. A text is the byte
  string of its encoding; its unpacking and viewing differ from those of bytes past the end of the
  data, as in the source.
- **Pjson.** Encoder and decoder are functions; `Wire` relates bytes and values without following either,
  and the decoder reads exactly this relation (`WireIff`); the TypeScript decoder's wire forms are told apart
  in `PjsonJsAccept`. What encoding loses is said with the infinities
  and quiet NaNs as numerals (`PjsonNaNs`).
- **Mutation.** A buffer is `Good` for a record when every declared slot is null, empty or leads to
  the packing of the field's value, in bounds, with no two heap parts overlapping. It says nothing
  about heap order or dead bytes, so both modes and any mix keep it; byte equality with repacking is
  a separate, exact statement (`CanonicalIsRepack`), and so are the bytes that the fast mode may change
  (`FastWrites`).
- **Floating point.** Magnitudes are natural numbers in units small enough for the finest subnormal,
  so "nearest", "exact" and "same value" are integer statements. No rounding is left to the prover.

## Where the code and its documentation differ

The model follows the code.

- `js/src/compress-name.ts` presents decompression as the inverse of compression; names of 64 or more
  bits can be kept and still decode to another name (`QqqcwIsLost`, and in general
  `LongNamesAreLost`). `RoundTripExactly` is the exact condition.
- `js/README.md:138-140` says that old readers can read data with added optional fields. The view
  can; unpacking refuses as soon as an added field has heap bytes (`OldReadsNew`).
- `js/src/mutation.ts:413-424` says that the canonical mode always leaves canonical data.
  `CanonicalIsRepack` says when it does. Heap bytes appended for a field that had none are out of
  order if a later field has some, a null in the last packed field leaves its slot declared, and an
  optional set to an empty container takes heap bytes.
- A struct's view cannot show an optional field that holds an empty container (`ViewReads`). A fixed
  struct's view follows the offset of an optional part twice, so nulls in it are never read right
  (`FixedStructReads`, `AbsentPartIsLost`); `ViewShows` is the condition for all types. `MutView.get`
  misreads optional scalars and other optionals without a heap part of their own, and nothing else
  (`GetAgreesIff`).
- `js/src/mutation.ts:152-156` says that measuring gives the complete serialized size. For a list of
  optionals it measures each element's own offset in place of the element. `OptionalsExactIff` says
  when the size is right. Measured too small, an assignment leaves dead bytes (`DeadByteIsLeft`) and
  is no repack (`CanonicalIsRepack`); measured too large, it cuts into the next field
  (`NeighbourIsLost`). All other types are measured right (`MeasuresPacked`).
- The comments at lines 441 and 2465-2469 of the pjson driver say that accepted number strings fit
  128 bits; nothing checks it (`LargeIntegersWrap`).
- Lines 2129-2131 and 2202-2203 of the driver say that `decimal_to_f64_exact` answers whenever a binary64
  of the number exists. It counts the bits of m * 5^s with its factors of two, and so misses numbers
  (`PowerIsMissed`, `MissedIff`), which are then written as longer decimals (`PickIsShortest`). Its only
  caller passes no such number for a fraction that fits (`TextFractionIsShortest`).
- In a row array the C++ decoder takes the records to start behind as many bytes as all keys have
  together, the TypeScript decoder behind the last key. Bytes that no encoder writes are accepted by both
  with different cells (`OverlaidIsReadTwice`).
- A struct whose header ends within a slot is accepted by unpacking, which follows the offset in that slot;
  the view takes the same field for null (`CutSlotIsReadTwice`). No writer makes such a header.
- `f16_bits_to_f64_local` in the driver is wrong on subnormals (`LocalKeepsIff`); no caller in the
  driver passes it a binary16.
- The TypeScript encoder can set a float's flag for scientific notation, which the C++ decoder
  refuses (`ScientificIsRefused`).
- `js/src/pjson.ts:19` and line 229 mean to keep arbitrary string bytes. The decoder of UTF-8 that the
  file uses drops a byte order mark at the start of a text or key (`MarkIsLost`); `ReadBack` and
  `UnmarkedIff` say that nothing else is lost.

## Conventions of the model

- Numbers are unbounded; words that wrap, shift or are cut off are written with explicit moduli
  (`U16`, `U32`, `Le`, `Shl`, 128-bit magnitudes as two words).
- Exceptions and error returns are `None`, `Failure`, `Refused` or a negative result.
- The key hash of pjson, the fallback hash of names and LZ4's position hash are function parameters:
  every statement holds for any hash. So is the test for UTF-8 in the TypeScript pjson decoder.
- Strings are byte strings (character codes for names and number texts).
- Negating the mantissa -2^127 overflows in C++ (`decimal_to_f64_exact` with scale 0). The model
  takes its magnitude, 2^127, which has too many bits for an answer.

## Model

| member | source | states |
|---|---|---|
| `NameTables.ModelIsValid` | js/src/compress-name.ts:27-55 | the shipped frequency table meets what the coder relies on: 27 rows, each starting at 0, nondecreasing, ending at 32767, and no letter is followed by an impossible terminator |
| `NameMethods.NameToNumber` | js/src/compress-name.ts:98-210 | the encoder loop with its bit packer and closures computes the specification `NameCode` on every string, the empty one, `#` names and names it gives up included |
| `NameMethods.CompressLoop` | js/src/compress-name.ts:117-199 | interval updates, renormalisation, pending bits and the two closing bits yield exactly the packed bits of the specified run, or 0 when a symbol is left over or the 64th bit would be set |
| `NameMethods.BitPacker.PutBit` | js/src/compress-name.ts:121-142 | the packer holds, in its partial byte and its 64-bit word, exactly the bits put so far |
| `NameMethods.BitPacker.PutBitPlusPending` | js/src/compress-name.ts:155-158 | a bit is followed by all pending opposite bits |
| `NameMethods.NumberToName` | js/src/compress-name.ts:213-305 | the decoder loop computes the specification `NameOf` for every 64-bit number |
| `NameMethods.DecompressLoop` | js/src/compress-name.ts:227-302 | the lockstep decoder, reading bits on demand, yields the letters of the specified decoding |
| `NameMethods.BitReader.GetBit` | js/src/compress-name.ts:233-243 | the n-th call returns the n-th bit of the stream stored in the number |
| `NameTheorems.RoundTripExactly` | js/src/compress-name.ts:98-305 | for every valid table and every string of compressible characters: decoding the code gives the string back if and only if it is in lower case and survives, an explicit condition on the encoder's run: every transition has width, no symbol is left over, fewer than 63 shifts before the last letter, and the final interval can be closed within the 63 stored bits |
| `NameTheorems.ShortNamesSurvive` | js/src/compress-name.ts:117-305 | every lower-case name whose transitions all have positive width and whose code, closing bits included, is at most 63 bits is given back, and its code is not a hash |
| `NameTheorems.SurvivorsHaveDistinctCodes` | js/src/compress-name.ts:98-209 | no two surviving names share a code |
| `NameForms.SymbolOfLower` | js/src/compress-name.ts:14-24 | letters of both cases, digits and the underscore are all that can be coded, each as one lower-case letter: the digits 0 to 9 as e a i o t n r s l c, the underscore as q |
| `NameForms.ReturnsLowerForm` | js/src/compress-name.ts:98-305 | for every string of such characters, decoding its number gives its lower-case form if and only if it survives |
| `NameForms.SameNumberIff` | js/src/compress-name.ts:98-209 | two surviving names have the same number if and only if they have the same lower-case form |
| `NameForms.ZeroIff` | js/src/compress-name.ts:98-115 | among names without `#` the number 0 is that of the empty name and of those with a character that cannot be coded, and of no other |
| `NameForms.NumberOfS` | js/src/compress-name.ts:117-209 | with the shipped table the name "s" has the number 0x58: the bits 0101, which the letter and the terminator settle, then the closing 100 |
| `NameTheorems.SettledSpreads` | js/src/compress-name.ts:166-191 | while fewer than 64 bits are out every renormalised interval has low < 1/2 <= high and more than a quarter of the range, and a symbol keeps a non-empty sub-interval exactly if it has positive width |
| `NameRoundTrip.RenormaliseEdges` | js/src/compress-name.ts:177-191 | renormalising, pending bits included, moves neither edge of the interval as seen in the number being written, and stops only settled or out of bits |
| `NameRoundTrip.SettleTracks` | js/src/compress-name.ts:282-301 | from the encoder's interval the decoder's settling reaches exactly the encoder's renormalised interval, as long as its input lasts |
| `NameRoundTrip.NextSymbolIs` | js/src/compress-name.ts:254-281 | the row search returns a symbol if and only if the window lies in that symbol's sub-interval |
| `NameCodes.CodeIsClosingPoint` | js/src/compress-name.ts:193-199 | the two closing bits name a point at or above the final interval's lower end when no set bit is cut off |
| `NameCodes.KeptIffFits` | js/src/compress-name.ts:193-203 | the code is kept and lies in the final interval if and only if at most 62 bits are out and the closing bits before the 64th include the one that counts, or 63 or more are out, none pending, the interval starts at its origin, all bits from the 64th on are clear and some bit is set |
| `NameTheorems.CompressedIsNotHash` | js/src/compress-name.ts:127-199 | no arithmetic code has the bit that marks a hash name, for any table and any string |
| `NameTheorems.HashNameIffGivenUp` | js/src/compress-name.ts:201-209 | `isHashName` of the result tells exactly whether the arithmetic code was given up |
| `NameForms.GivenUpKeepsHash` | js/src/compress-name.ts:201-207 | the number of a name the coder gives up is the name's hash in all bits but bit 56, which is set |
| `NameForms.GivenUpShareIff` | js/src/compress-name.ts:201-207 | two names given up share their number if and only if their hashes agree in all bits but bit 56 |
| `NameTheorems.HashNameRoundTrip` | js/src/compress-name.ts:101-110 | every marked 64-bit number is the number of its own `#` name |
| `NameForms.SignedNumber` | js/src/compress-name.ts:101-110 | a `#` and sixteen characters give one nibble for each, lowest first, 15 for a character without a symbol; `#` names of other lengths give 2^64 - 1, and the coder throws exactly for a character past the end of its table |
| `NameForms.HashNameLetters` | js/src/compress-name.ts:216-225 | the name of a marked number is a `#` and for each nibble one of the sixteen letters of the lowest symbols |
| `NameLost.LongNamesAreLost` | js/src/compress-name.ts:193-203 | a name whose 64 bits are out before the closing bits, with an interval above its origin, is never given back |
| `NameLost.QqqcwIsLost` | js/src/compress-name.ts:98-305 | with the shipped table "qqqcw" is kept as a compressed name and decodes to another name |
| `Lz4Compress.WildCopy8` | cpp/external/lz4/lz4.c:464-472 | copies the wanted bytes, touches nothing before them and at most 8 bytes behind them |
| `Lz4Compress.Count` | cpp/external/lz4/lz4.c:679-703 | returns exactly the length of the longest common prefix of the two positions within the limit |
| `Lz4Compress.FindMatch` | cpp/external/lz4/lz4.c:1019-1102 | with any hash function the positions probed are the specified ones, and each but the last was compared and had no near candidate that agrees on 4 bytes; a match is reported exactly if the last one is in reach, and then with that candidate, which lies at most 65535 back and agrees on 4 bytes |
| `Lz4Compress.CatchUp` | cpp/external/lz4/lz4.c:1104-1109 | moving back keeps the distance, everything passed agrees, and it stops only at the pending literals, at the start of the input or before bytes that differ |
| `Lz4Compress.CompressValidated` | cpp/external/lz4/lz4.c:930-1338 | the array-writing compressor: a block is legal (sequences that expand to the source, last 5 bytes literals, no match starting in the last 11) and has exactly the sequences the search yields; it fails only in limited mode, with a buffer smaller than the bound, at a sequence or at last literals for which a test of room fails |
| `Lz4Compress.Compress` | cpp/external/lz4/lz4.c:1344-1379 | for every source, hash function and table size: 0 only for oversized input or as just said; otherwise the size is within the buffer and within n + n/255 + 16, the sequences are those of the search, and the block decodes, by both decoders, to exactly the source; n >= 13 equal bytes become one match at distance 1 and five last literals in 10 + (n + 230)/255 bytes in every buffer that has them, limited or not |
| `Lz4Search.SearchIsUnique` | cpp/external/lz4/lz4.c:1002-1298 | the source, the slots of its positions and the acceleration determine the sequences: each match is the first hit of the probes, extended back as far and forward as long as it goes |
| `Lz4Search.RunIsOneMatch` | cpp/external/lz4/lz4.c:1002-1298 | 13 or more equal bytes are one literal and one match, whatever the acceleration, if only the first two positions have the same slot |
| `Lz4Format.ShortBlock` | cpp/external/lz4/lz4.c:1113-1267 | the bytes of the block for 13 equal bytes |
| `Lz4Format.LongBlock` | cpp/external/lz4/lz4.c:1113-1267 | the bytes of a block whose two lengths are continued |
| `Lz4Format.BlockBound` | cpp/external/lz4/lz4.h:214-215 | every legal block of n bytes takes at most n + n/255 + 16 bytes |
| `Lz4Format.PeriodicIsCopy` | cpp/external/lz4/lz4.c:1951-1955 | a periodic continuation is what the forward byte-at-a-time copy produces |
| `Lz4Unsafe.UnsafeRoundTrip` | cpp/external/lz4/lz4.c:1888-1965 | the byte-copy decoder undoes every legal block, whatever follows it and whatever the output buffer held, and consumes exactly the block |
| `Lz4Unsafe.DecompressUnsafe` | cpp/external/lz4/lz4.c:1869-1966 | the loop over arrays computes the specified decoding: -1 for corrupt input, else the bytes consumed |
| `Lz4Safe.SafeRoundTrip` | cpp/external/lz4/lz4.c:2215-2439 | the bounds-checked decoder, shortcut included, undoes every legal block in every buffer that can hold it |
| `Lz4Safe.LegalBlockDecodes` | cpp/external/lz4/lz4.c:1869-2439 | on every legal block the fast and the reference decoder produce the same bytes: the source |
| `Lz4Accepts.AcceptsIff` | cpp/external/lz4/lz4.c:1976-2439 | which of all byte strings the bounds-checked decoder accepts, and as what: sequences as they are written followed by last literals, each match reaching back into the output and ending with 5 bytes of room and its literals with 12 and with 8 bytes of input, except that far from both ends a short match with an offset of 8 or more is taken as it is; an offset of 0 stands for zeros |
| `Lz4SafeMethods.TableDistances` | cpp/external/lz4/lz4.c:474-475 | the two tables turn an offset below 8 into a distance of at least 8 that is a multiple of the offset |
| `Lz4SafeMethods.TiledIsCopy` | cpp/external/lz4/lz4.c:2406-2434 | bytes that repeat with the offset are those of the byte-at-a-time copy |
| `Lz4SafeMethods.FirstEight` | cpp/external/lz4/lz4.c:2406-2419 | the first 8 bytes of an overlapping match are right and leave a copy distance of at least 8 |
| `Lz4SafeMethods.CopyMatchSafe` | cpp/external/lz4/lz4.c:2387-2435 | wild copies, the byte tail and the limits near the end: the match is the byte-at-a-time copy, refused exactly when it reaches the last five bytes |
| `Lz4SafeMethods.ShortcutStep` | cpp/external/lz4/lz4.c:2221-2261 | the 16- and 18-byte copies agree with the specification whether or not the second stage applies |
| `Lz4SafeMethods.DecompressSafe` | cpp/external/lz4/lz4.c:2022-2456 | on every input, malformed ones included, the decoder stays within its buffers and returns the specified size or the specified error position |
| `FracPackTo.PackTo` | js/src/fracpack.ts:213-303 | packing into the growing writer appends exactly the bytes of the specification for every type (scalars, texts, bytes, lists, optionals, structs, variants, tuples, arrays, fixed structs) and value: placeholders first, offsets patched once the heap position is known |
| `FracPackTo.PackFields` | js/src/fracpack.ts:892-918 | struct packing: trailing absent optionals left out, two passes over the slots, the header and every offset right |
| `FracPackTo.PackOffsets` | js/src/fracpack.ts:558-573 | a vector of variable-size elements: zeros, then each element behind its patched offset |
| `FracPackTo.PackCase` | js/src/fracpack.ts:772-781 | a variant: index, patched size, body |
| `FracPackTo.PackArray` | js/src/fracpack.ts:639-647 | an array: all slots, nulls too, then the heap parts, the places of the slots computed |
| `FracPackTo.PackFixed` | js/src/fracpack.ts:1087-1097 | a fixed struct: the same two passes without header |
| `FracVectors.PackedAlone` | conformance/cpp-golden.json:34-45 | the bytes of texts, numbers and optionals, absent, empty or present, and of a variant |
| `FracVectors.TextsPacked` | conformance/cpp-golden.json:41-42 | the bytes of lists of two texts and of two optional texts |
| `FracVectors.RecordPacked` | js/src/fracpack.ts:892-918 | the bytes of a record of a number and an optional text: a null at the end is left out, an empty text is the offset 0 |
| `FracWriter.Writer.Grow` | js/src/fracpack.ts:32-40 | growing keeps what is written and makes the room asked for |
| `FracWriter.Writer.PatchU32` | js/src/fracpack.ts:60 | overwrites four bytes already written and nothing else |
| `FracReader.Reader.UnpackFrom` | js/src/fracpack.ts:249-291 | the reader class with its moving position computes the specified unpacking of every type on every byte string, refusals included |
| `FracReader.Reader.ReadFields` | js/src/fracpack.ts:920-936 | the struct loop: required and declared fields read through the cursor, the others null, unknown slots consumed |
| `FracReader.Reader.ConsumeTrailing` | js/src/fracpack.ts:1212-1224 | skipping unknown trailing slots moves the reader as specified or refuses |
| `FracReader.Reader.ReadSlot` | js/src/fracpack.ts:279-290 | a value without a heap part is read where it stands, the cursor goes right behind it and the reader is put back; any other is read through its offset |
| `FracReader.Reader.ReadArray` | js/src/fracpack.ts:649-655 | the array loop over the slots |
| `FracReader.Reader.ReadTuple` | js/src/fracpack.ts:718-734 | the tuple loop, with missing optionals at the end and unknown slots |
| `FracReader.Reader.ReadFixed` | js/src/fracpack.ts:1099-1106 | the fixed struct loop |
| `FracReader.Reader.SetPos` | js/src/fracpack.ts:110-114 | the reader moves forward only, and only inside the data |
| `FracUnpack.UnpackReads` | js/src/fracpack.ts:249-291 | for every type and value, wherever the packed bytes lie in a larger buffer, the forward-only reader gives back the value and ends right behind it |
| `FracUnpack.UnpackPack` | js/src/fracpack.ts:244-254 | unpacking a packed value gives the value, with no bytes left over |
| `FracAccept.UnpackTyped` | js/src/fracpack.ts:249-291 | whatever the bytes, a value that is unpacked has the type it was unpacked as: integers within their width, truth values 0 or 1, as many items as the type has |
| `FracAccept.PrefixFree` | js/src/fracpack.ts:244-254 | a buffer that is accepted as a whole is refused with any bytes behind it |
| `FracAccept.AcceptedList` | js/src/fracpack.ts:574-589 | an accepted list has a size that is a whole number of elements inside the data, and its offsets lead into the data, each to or behind where the one before leads, none into the slots |
| `FracAccept.AcceptedUnknown` | js/src/fracpack.ts:1212-1224 | slots of unknown fields in accepted data hold 0 or 1 or lead forward into the data |
| `FracAccept.AcceptedHeaders` | js/src/fracpack.ts:249-291 | the slots of accepted structs, tuples, arrays and fixed structs lie inside the data, so do byte strings, and the case of a variant exists |
| `FracAccept.ViewedHeaders` | js/src/fracpack.ts:292-301 | what the view needs of arbitrary bytes: scalars whole and truth values 0 or 1, the size of a list a whole number of elements, headers inside the data, a case that exists |
| `FracVectors.ShortOffsetsRefused` | conformance/cpp-golden.json:46-53 | the malformed lists of the shared vectors are refused, for elements of every type of variable size |
| `FracVectors.CutSlotIsReadTwice` | js/src/fracpack.ts:849-872 | a buffer whose header ends within a slot: unpacking follows the offset in that slot, the view takes the field for null |
| `FracView.ViewReads` | js/src/fracpack.ts:292-301 | for every type in which no fixed struct has an optional part, wherever the value lies: its lazy view reads it if and only if no struct inside has an optional field holding an empty container, and fails otherwise; tuples and arrays show such containers |
| `FracFixedView.ViewShows` | js/src/fracpack.ts:292-301 | for values of every type, fixed structs with optional parts at any depth included: the view reads a packed value if and only if it is shown there, a condition on the value that speaks of the bytes around it only at present optional parts of fixed structs |
| `FracFixedView.FixedStructReads` | js/src/fracpack.ts:1045-1066 | the view of a fixed struct with optional parts reads the value if and only if its other parts are shown and each optional part is present and found once more where its own first four bytes, taken as an offset, lead |
| `FracFixedView.AbsentPartIsLost` | js/src/fracpack.ts:1054-1059 | a null or an empty container in an optional part of a fixed struct is never viewed right, whatever surrounds the value |
| `FracUnpack.ViewAgrees` | js/src/fracpack.ts:249-301 | view and unpack agree on packed bytes of every type exactly on the values of `ViewShows` |
| `FracExamples.EmptyOptionalIsNotShown` | js/src/fracpack.ts:849-872 | one such value: an optional byte string that is present but empty |
| `FracExtend.NewReadsOld` | js/README.md:138-152 | a schema extended by trailing optionals reads old data, embedded or not, as the old fields and nulls, by unpacking and by view |
| `FracExtend.OldReadsNew` | js/README.md:138-140 | an old schema views new data as the old fields, but unpacks it if and only if no added field has bytes on the heap |
| `FracExamples.OldSchemaRefusesNewData` | js/README.md:138-140 | one record of the new schema that the old one cannot unpack |
| `FracSize.MeasuresPacked` | js/src/mutation.ts:157-289 | wherever a packed value lies, its measured size is not larger than its packing unless a list of optionals in it is measured too large, and then equals it if and only if its last heap part is measured right, down to the last list of optionals |
| `FracSize.OptionalsExactIff` | js/src/mutation.ts:184-211 | a list of optional strings, of optional lists without offsets, or of optionals of fixed size is measured right if and only if it is empty, ends with an empty container, or is of four-byte optionals and ends with null; and not too large under an equally explicit condition |
| `FracSize.OptionalBytesMeasured` | js/src/mutation.ts:184-211 | for optional strings: a null at the end counts one byte too many, a string of n bytes there n too few |
| `FracExamples.OptionalListIsMeasuredShort` | js/src/mutation.ts:184-211 | one such list, of 17 bytes measured as 16 |
| `FracExamples.DeadByteIsLeft` | js/src/mutation.ts:580-590 | emptying a field that holds this list leaves its last byte behind |
| `FracExamples.NeighbourIsLost` | js/src/mutation.ts:580-590 | emptying a field whose list ends with null makes the next field, a byte string, read as empty |
| `FracMutView.PackedSize` | js/src/mutation.ts:157-289 | the recursive measuring over the array computes that measure: its loops over lists, structs, tuples and fixed structs, and unpacking for arrays, which may throw |
| `FracMutView.SpliceBuffer` | js/src/mutation.ts:50-75 | bytes replaced and the tail shifted, in place exactly when the length stays |
| `FracMutView.PatchSlot` | js/src/mutation.ts:85-98 | an offset is corrected if it is one and leads to or behind the splice |
| `FracMutView.PatchAll` | js/src/mutation.ts:316-336 | the sibling loop patches exactly the declared variable-size slots but the one left out |
| `FracMutView.ExpandFixedRegion` | js/src/mutation.ts:357-400 | inserts the missing slots, declares them and corrects all earlier offsets |
| `FracMutate.PatchFieldsIs` | js/src/mutation.ts:316-336 | patching field by field never disturbs another slot: each ends at its corrected offset |
| `FracMutate.LiveRegion` | js/src/mutation.ts:546-590 | in a good buffer a live field's heap part is in bounds, behind the slots, and is the packing of its value |
| `FracMutate.OtherField` | js/src/mutation.ts:546-590 | a field whose heap part is clear of a splice still holds its value, found where the splice moved it |
| `FracMutate.GoodAfter` | js/src/mutation.ts:546-590 | a splice clear of all other heap parts, with the slot written, gives a good buffer of the updated record |
| `FracSet.CanonicalKeepsGood` | js/src/mutation.ts:552-628 | a canonical assignment to a declared field whose old value is not measured too large keeps all heap parts in bounds and apart, and updates exactly that field |
| `FracSet.CanonicalSplices` | js/src/mutation.ts:552-628 | it replaces the old heap part as measured by the new one, where it was or at the end if there was none, and moves everything behind it; no other heap byte changes |
| `FracSet.FastKeepsGood` | js/src/mutation.ts:632-694 | so does a fast assignment, dead bytes notwithstanding; which bytes it writes is `FastFootprint` |
| `FracFootprint.FastFootprint` | js/src/mutation.ts:632-694 | byte for byte: a null or an empty container changes the four slot bytes only; a value no longer than the measured old one is written over it, and no other byte changes, slots included; any other value is put behind the data, and below its end only the slot changes, which then leads there |
| `FracFootprint.SetFootprint` | js/src/mutation.ts:495-509 | setting a left-out field to null changes nothing in either mode; setting a declared field in the fast mode changes those bytes |
| `FracExpand.ExpandKeepsGood` | js/src/mutation.ts:357-400 | declaring more fields keeps the record; the new fields are null |
| `FracRun.SetKeepsGood` | js/src/mutation.ts:495-509 | one assignment in either mode, to a declared or a left-out field, gives a good buffer of the updated record, if the value replaced is not measured too large |
| `FracRun.RunKeepsGood` | js/src/mutation.ts:495-694 | after any run of assignments in any mix of the two modes, none of which replaces a value that is measured too large, the buffer holds the record with exactly those updates |
| `FracRun.RunExists` | js/src/mutation.ts:495-694 | within a size budget every run can be carried out |
| `FracRun.GoodReads` | js/src/fracpack.ts:849-872 | every field of a good buffer reads through the view as its value in the record, exactly if it is viewable and no optional container in it is marked by the offset 0 |
| `FracRun.GoodViews` | js/src/fracpack.ts:838-947 | the view of a good buffer is the record; bytes that no slot leads to do not matter |
| `FracGet.GetReads` | js/src/mutation.ts:457-490 | `MutView.get` reads every field but an optional without a heap part of its own as the view does, after any run |
| `FracGet.GetMisreads` | js/src/mutation.ts:129-139 | for every type of optional scalars, or optional arrays or fixed structs of scalars, a packed record exists whose field `get` cannot read although it unpacks correctly |
| `FracGet.GetAgreesIff` | js/src/mutation.ts:129-139 | a field type is read by `get` as by the view on every packed record of that one field if and only if it is no such optional |
| `FracCanonical.PackedIsGood` | js/src/mutation.ts:434-455 | every freshly packed record is a good buffer |
| `FracCanonical.CompactedIsPacked` | js/src/mutation.ts:522-529 | compacting a good buffer gives the packing of its record, if the view can show it |
| `FracCanonical.CanonicalIsRepack` | js/src/mutation.ts:533-628 | a canonical assignment to a packed record gives, byte for byte, the packing of the updated record if and only if heap order is kept, the last field is not set to null, no optional to an empty container, and the last heap part of the replaced value is measured right, all of them conditions on the record and the new value |
| `FracCanonical.MeasuredRightIff` | js/src/mutation.ts:157-289 | the field's heap part in the packed record is measured with its own length if and only if the value meets that last condition |
| `FracExamples.NullInLastFieldIsNoRepack` | js/src/mutation.ts:413-424 | one assignment whose result is not the packing of the updated record |
| `FracMutView.MutView.constructor` | js/src/mutation.ts:434-455 | a view starts on a copy of the bytes, and is valid for every record they hold |
| `FracMutView.MutView.Set` | js/src/mutation.ts:495-509 | the method keeps the view valid for the record with the one field updated; its buffer is the specified one, and in the fast mode a declared field changes only the bytes of `FastFootprint` |
| `FracMutView.MutView.SetVariableCanonical` | js/src/mutation.ts:552-628 | removal, append and splice with sibling patching in place give the specified buffer |
| `FracMutView.MutView.SetVariableFast` | js/src/mutation.ts:632-694 | marking, overwriting and appending in place give the specified buffer, and write only the bytes of `FastFootprint` |
| `FracMutView.MutView.Get` | js/src/mutation.ts:457-490 | reading step by step; in a valid view the value is the record's for all fields but optionals without a heap part of their own |
| `FracMutView.MutView.Compact` | js/src/mutation.ts:522-529 | afterwards the buffer is the packing of the record and the view still valid, or the view cannot show it and nothing changed |
| `PjsonNumbers.ZigzagIs` | cpp/conformance/pjson_conformance_driver.cpp:865-898 | zigzag numbers 0, -1, 1, -2 in order over the whole signed range and decoding undoes it |
| `PjsonNumbers.VaruintRoundTrip` | cpp/conformance/pjson_conformance_driver.cpp:901-945 | a varuint exists exactly for values below 2^30; decoding undoes it whatever follows |
| `PjsonRoundTrip.RoundTrip` | cpp/conformance/pjson_conformance_driver.cpp:953-1675 | every value the encoder takes decodes, at any depth, to itself with quiet NaNs, exactly when its nesting stays within 256; deeper values are refused |
| `PjsonRoundTrip.DecodeEncode` | cpp/conformance/pjson_conformance_driver.cpp:953-1675 | the same for whole buffers, with any key hash |
| `PjsonNaNs.EncodingIsInjective` | cpp/conformance/pjson_conformance_driver.cpp:953-1223 | two values within the nesting limit have the same bytes if and only if they are the same except that one NaN may stand for another of its width |
| `PjsonNaNs.NaNIff` | cpp/conformance/pjson_conformance_driver.cpp:557-592 | the test of the exponent and fraction fields, which both encoders use, is a comparison of the bits without their sign with infinity, for bits of any size |
| `PjsonNaNs.FloatComesBack` | cpp/conformance/pjson_conformance_driver.cpp:557-592 | a float of 2, 4, 8 or 16 bytes comes back as it is if and only if without its sign it is at most 0x7C00, 0x7F800000, 0x7FF0 * 2^48 or 0x7FFF * 2^112, infinity, or is the quiet NaN; any other comes back as that NaN |
| `PjsonNaNs.DecodesButNaNs` | cpp/conformance/pjson_conformance_driver.cpp:953-1675 | what is decoded is the same value but for its NaNs, all of them quiet, and the value itself if and only if they were quiet before |
| `PjsonGrammar.WireIff` | cpp/conformance/pjson_conformance_driver.cpp:1290-1675 | on every byte string and at any depth the decoder reads a value if and only if the bytes are a wire form of it: tag, lengths, offsets in order and inside the data, key lengths and hashes, widths and counts, as a relation between bytes and value |
| `PjsonExamples.Integers` | conformance/fixtures/4.5_uint/value_256.json:1-10 | the bytes of null, truth values, small and larger integers and a numeric string |
| `PjsonExamples.Decimals` | conformance/fixtures/4.7_decimal/value_1_5.json:1-10 | the bytes of three decimals |
| `PjsonExamples.Floats` | conformance/fixtures/4.6_ieee_float/f64_pos_inf.json:1-10 | the bytes of 1 in two widths, of both infinities and of a NaN |
| `PjsonExamples.Strings` | conformance/fixtures/5.1.1_typed_array/u8_three.json:1-10 | the bytes of texts, byte strings in their notations, an extension and a typed array |
| `PjsonExamples.AnArray` | conformance/fixtures/5.1_array/heterogeneous.json:1-14 | the bytes of an array of two values |
| `PjsonExamples.AnObject` | conformance/fixtures/5.2_object/multi_field.json:1-14 | the bytes of an object of two entries |
| `PjsonExamples.ARowArray` | conformance/fixtures/5.2.1_row_array/single_row.json:1-12 | the bytes of an array of one row |
| `PjsonExamples.OffsetWidthIs` | cpp/conformance/pjson_conformance_driver.cpp:1201-1211 | offsets take the least number of bytes the size of the data needs, and there is none from 2^32 on |
| `PjsonExamples.LeafLimits` | cpp/conformance/pjson_conformance_driver.cpp:953-1223 | exactly which values without containers are refused: negative zero, floats of other widths, scales outside 30 bits, kinds that do not exist, and numeric strings around other values |
| `PjsonExamples.ArrayLimits` | cpp/conformance/pjson_conformance_driver.cpp:1188-1215 | an array is refused exactly for more than 65535 elements, 4 GiB of data or a refused element |
| `PjsonExamples.ObjectLimits` | cpp/conformance/pjson_conformance_driver.cpp:1012-1066 | an object likewise |
| `PjsonExamples.RowLimits` | cpp/conformance/pjson_conformance_driver.cpp:1088-1174 | a row array is refused exactly for more than 65535 records, records of another length, keys of more than 255 bytes or starting at 2^24 or behind, 2^30 keys, and data of 4 GiB |
| `PjsonRoundTrip.KeyReads` | cpp/conformance/pjson_conformance_driver.cpp:1024-1042 | keys of any length, long ones with their varuint, are split off as written |
| `PjsonRoundTrip.RowDecodes` | cpp/conformance/pjson_conformance_driver.cpp:1556-1586 | a record with its own slot table decodes to its cells |
| `PjsonWriter.EncodeInto` | cpp/conformance/pjson_conformance_driver.cpp:953-1223 | the encoder as it runs, with output vectors, running offsets and nested temporaries, appends exactly the specified code, and throws exactly when there is none |
| `PjsonWriter.PushObject` | cpp/conformance/pjson_conformance_driver.cpp:1012-1066 | objects: entries, key hashes, sized offset table, count |
| `PjsonWriter.PushRowArray` | cpp/conformance/pjson_conformance_driver.cpp:1088-1174 | row arrays: checks, shared keys, records with their tables, record offsets |
| `PjsonWriter.PushVaruint` | cpp/conformance/pjson_conformance_driver.cpp:922-931 | the varuint loop |
| `PjsonWriter.MinimalBytes` | cpp/conformance/pjson_conformance_driver.cpp:529-536 | writing 16 bytes and dropping zeros from the end gives the minimal bytes |
| `PjsonReader.ReadValue` | cpp/conformance/pjson_conformance_driver.cpp:1314-1431 | the decoder as it runs, on every byte string, gives the specified value or refusal |
| `PjsonReader.ReadObject` | cpp/conformance/pjson_conformance_driver.cpp:1592-1657 | the object loop with its offsets, key sizes and hash checks |
| `PjsonReader.ReadRowArray` | cpp/conformance/pjson_conformance_driver.cpp:1485-1589 | the row array loops with both levels of offset tables |
| `PjsonReader.ReadVaruint` | cpp/conformance/pjson_conformance_driver.cpp:935-945 | the varuint loop |
| `PjsonJs.JsEncodeValue` | js/src/pjson.ts:136-201 | two encoders, one wire: for every value (null, booleans, integers, decimals, floats, strings, bytes, typed arrays, arrays, objects, rows) the TypeScript encoder throws exactly if the C++ encoder does or one of its own extra limits is passed, writes as many bytes otherwise, and the same bytes if and only if no float in the value has the flag for scientific notation |
| `PjsonJs.ContainerCode` | js/src/pjson.ts:152-173 | arrays and objects in their one loop: alike in length, and the same exactly if the parts are |
| `PjsonJs.RowsCode` | js/src/pjson.ts:174-201 | row arrays, with the schema checks and running totals |
| `PjsonJs.Magnitude` | js/src/pjson.ts:78-82 | the count loop gives the minimal number of bytes, at least one |
| `PjsonJs.JsDecimalCode` | js/src/pjson.ts:88-93 | decimals: integer form for scale 0, else zigzag mantissa and scale |
| `PjsonJs.ScientificIsRefused` | js/src/pjson.ts:94-102 | a float with the flag for scientific notation, which only this encoder has, is refused by the C++ decoder |
| `PjsonJsReader.JsDecodeBuffer` | js/src/pjson.ts:202-303 | the TypeScript decoder as it runs (numbers from the highest byte down, leaves by tag, one loop for arrays and objects, the row loop, texts and keys through the decoder of UTF-8) computes the specification `JsRead` on every byte string |
| `PjsonJsReader.ReadContainer` | js/src/pjson.ts:240-264 | the common loop of arrays and objects over absolute positions gives the specified children or entries, or refuses |
| `PjsonJsReader.ReadRows` | js/src/pjson.ts:265-300 | row arrays: slots, names and records with all their offset checks, for every header |
| `PjsonJsReader.ReadKeyAt` | js/src/pjson.ts:249-259 | the key at a position is the one the C++ reader splits off the entry |
| `PjsonJsAccept.JsLeafIff` | js/src/pjson.ts:205-239 | on every byte string the TypeScript decoder reads a value without parts if and only if at most 64 levels lie around it and the bytes are one of its wire forms, among them null with any lower half of its tag and floats with the flag |
| `PjsonJsAccept.JsArrayIff` | js/src/pjson.ts:240-264 | it reads an array if and only if the header, the table and the count are as they should be, the offsets are in order and inside the data, and each piece is read as the element; unlike the C++ decoder it takes any width of offsets |
| `PjsonJsAccept.JsObjectIff` | js/src/pjson.ts:240-264 | an object likewise, with the length bytes of the keys and their hashes |
| `PjsonJsAccept.JsRowsIff` | js/src/pjson.ts:265-300 | a row array if and only if it has a key, each key is shorter than 255 bytes, ends no later than the last one and has its hash, and all records and cells lie in order behind the last key and are read as the cells |
| `PjsonAgree.DecodersAgree` | js/src/pjson.ts:202-303 | on any bytes, written by an encoder or not, and any depths: if both decoders accept them and in every row array the last key ends where all keys laid one behind the other would, they return the same value if and only if no text or key starts with a byte order mark |
| `PjsonAgree.NoRowsInLine` | js/src/pjson.ts:265-277 | the condition on row arrays holds of all bytes in which no row array is read |
| `PjsonAgree.OverlaidIsReadTwice` | js/src/pjson.ts:265-283 | a buffer with overlaid keys that both decoders accept, with the same keys and other cells |
| `PjsonJsDecode.ReadBack` | js/src/pjson.ts:205-300 | on what the C++ encoder writes of any value the TypeScript decoder has, both decoders read the same value if and only if no text or key starts with a byte order mark; the second reads exactly the values of at most 65 levels |
| `PjsonJsDecode.UnmarkedIff` | js/src/pjson.ts:202-204 | what a value loses in the TypeScript decoder is the byte order marks of its texts and keys, nothing else |
| `PjsonJsDecode.MarkIsLost` | js/src/pjson.ts:227-232 | the text that is a byte order mark and the empty text are read as the same value |
| `PjsonJsDecode.OwnRoundTrip` | js/src/pjson.ts:136-303 | whatever the TypeScript encoder accepts, without flagged floats, both decoders read back, nested as deep as that encoder goes |
| `PjsonJsDecode.FlaggedFloatReads` | js/src/pjson.ts:223-226 | flagged floats are read back by the TypeScript decoder and refused by the C++ one |
| `Base58.DecodeUndoesEncode` | cpp/conformance/pjson_conformance_driver.cpp:333-407 | decoding undoes encoding on every byte string, leading zeros included |
| `Base58.EncodeUndoesDecode` | cpp/conformance/pjson_conformance_driver.cpp:333-407 | texts over the alphabet, and no others, decode, and encoding gives them back |
| `Base58.TextIsNumber` | cpp/conformance/pjson_conformance_driver.cpp:381-407 | the letters of the text are the digits, in base 58, of the number the bytes write in base 256, behind a 1 for each zero byte in front |
| `Base58.ATextOfBytes` | conformance/fixtures/4.10_bytes/base58.json:1-10 | the text of the bytes DE AD BE EF |
| `Base58.ReserveSuffices` | cpp/conformance/pjson_conformance_driver.cpp:341-345 | the accumulator never outgrows payload * 733 / 1000 + 1 bytes |
| `Base58Methods.Base58Decode` | cpp/conformance/pjson_conformance_driver.cpp:333-368 | the multiply-and-add loops compute the decoding |
| `Base58Methods.Base58Encode` | cpp/conformance/pjson_conformance_driver.cpp:381-407 | the repeated long division computes the encoding |
| `NumberText.ScanIsExact` | cpp/conformance/pjson_conformance_driver.cpp:442-488 | the scanner accepts exactly the texts of canonical numbers and finds their parts |
| `NumberText.PrintsBackIffFits` | cpp/conformance/pjson_conformance_driver.cpp:2495-2507 | a canonical number is built and printed back unchanged if and only if its magnitude fits 128 bits (127 and a sign for decimals) |
| `NumberText.LargeIntegersWrap` | cpp/conformance/pjson_conformance_driver.cpp:2465-2483 | larger integers are accepted all the same and come back modulo 2^128; 2^128 itself as 0 |
| `NumberTextMethods.ScanNumber` | cpp/conformance/pjson_conformance_driver.cpp:442-488 | the scanning loops agree with the specified scan on every string |
| `NumberTextMethods.U128FromDigits` | cpp/conformance/pjson_conformance_driver.cpp:2470-2483 | the two-word loop computes the number modulo 2^128 |
| `NumberTextMethods.U128ToDecimal` | cpp/conformance/pjson_conformance_driver.cpp:1712-1738 | the two-word long division by ten prints the decimal text |
| `FloatFormats.OddToIsSound` | cpp/conformance/pjson_conformance_driver.cpp:671-691 | an answer of the exact narrowing is a finite encoding of exactly the value, in any format |
| `FloatFormats.OddToIsComplete` | cpp/conformance/pjson_conformance_driver.cpp:671-691 | a value the format has is found, subnormals included |
| `FloatWidths.NarrowToIff` | cpp/conformance/pjson_conformance_driver.cpp:652-691 | narrowing a binary64 answers if and only if the format has the number |
| `FloatWidths.NarrowF64IsNarrowest` | cpp/conformance/pjson_conformance_driver.cpp:790-845 | a finite binary64 keeps its sign and value in the narrowest of the widths 2, 4 and 8 bytes that has it |
| `FloatWidths.NarrowF128IsNarrowest` | cpp/conformance/pjson_conformance_driver.cpp:790-845 | a finite binary128 stays as it is exactly if no binary64 has its value; otherwise it goes to the narrowest width |
| `FloatSpecials.NarrowF64Specials` | cpp/conformance/pjson_conformance_driver.cpp:790-812 | the infinities of 8 bytes become 0x7C00 and 0xFC00, every NaN 0x7E00, and zeros keep their sign |
| `FloatSpecials.NarrowF128Specials` | cpp/conformance/pjson_conformance_driver.cpp:790-812 | and so do those of 16 bytes |
| `FloatSpecials.FormatsAre` | cpp/conformance/pjson_conformance_driver.cpp:652-691 | the three formats by their encodings of 1, of infinity and of the least positive number |
| `FloatSpecials.SignIsHighest` | cpp/conformance/pjson_conformance_driver.cpp:790-812 | the sign is the highest bit of each width |
| `FloatWiden.F16BitsToF64` | cpp/conformance/pjson_conformance_driver.cpp:1681-1708 | the widening with its normalising loop |
| `FloatWiden.NarrowWiden` | cpp/conformance/pjson_conformance_driver.cpp:652-691 | narrowing gives back every finite binary16 that was widened |
| `FloatWiden.Widen16Keeps` | cpp/conformance/pjson_conformance_driver.cpp:1681-1708 | widening keeps the value of every finite binary16 |
| `FloatWiden.LocalKeepsIff` | cpp/conformance/pjson_conformance_driver.cpp:693-716 | the other widening in the driver keeps exactly the numbers that are not subnormal |
| `FloatSpecials.LocalSubnormal` | cpp/conformance/pjson_conformance_driver.cpp:693-716 | what it makes of a subnormal instead |
| `FloatSpecials.WidenSpecials` | cpp/conformance/pjson_conformance_driver.cpp:693-716 | widening keeps infinity and the payload of a NaN; the other widening makes NaNs quiet |
| `DecimalPick.AnswerIsExact` | cpp/conformance/pjson_conformance_driver.cpp:2132-2183 | whenever an exact binary64 for m * 10^s is returned it has exactly that value and sign |
| `DecimalPick.AnswersIff` | cpp/conformance/pjson_conformance_driver.cpp:2132-2183 | one is returned exactly for zero and when m * 5^s is a whole number of at most 53 bits with a normal exponent |
| `DecimalPick.FindF64` | cpp/conformance/pjson_conformance_driver.cpp:2132-2183 | the multiplying, dividing and bit-counting loops compute the specified answer |
| `DecimalPick.PickIsExact` | cpp/conformance/pjson_conformance_driver.cpp:2185-2216 | the choice is the decimal itself or a floating-point number of exactly its value and sign, in the narrowest width; which of them is `ChoiceIff` |
| `DecimalFound.FoundIff` | cpp/conformance/pjson_conformance_driver.cpp:2132-2183 | for m other than 0 a binary64 is found if and only if m * 5^s is a whole number below 2^53; the tests of the exponent never fail |
| `DecimalFound.Binary64Iff` | cpp/conformance/pjson_conformance_driver.cpp:2129-2131 | m * 10^s is a binary64 if and only if m * 5^s is whole and, without its factors of two, below 2^53 |
| `DecimalFound.MissedIff` | cpp/conformance/pjson_conformance_driver.cpp:2129-2168 | a binary64 that exists is missed if and only if m * 5^s is whole, at least 2^53, and below 2^53 without its factors of two |
| `DecimalFound.FractionsAreFound` | cpp/conformance/pjson_conformance_driver.cpp:2627-2632 | with a negative scale and a last digit other than 0 nothing is missed: one is found if and only if the number is a binary64 |
| `DecimalFound.PickIsShortest` | cpp/conformance/pjson_conformance_driver.cpp:2185-2216 | the choice is encoded in no more bytes than the decimal; and in no more than any floating-point number of 2, 4 or 8 bytes with that value if and only if it is not the case that one is missed and the least width that has it is shorter than the decimal; ties are settled by `ChoiceIff` |
| `DecimalChoice.ChoiceIff` | cpp/conformance/pjson_conformance_driver.cpp:2211-2216 | for every mantissa and scale: the decimal is chosen if and only if it is encoded in strictly fewer bytes than every floating-point number of the value, or the number is one that is missed; every tie goes to the floating-point number |
| `DecimalChoice.TieGoesToFloat` | conformance/fixtures/7_json_ingress/j007_fractional_picker.json:1-10 | 15 * 10^-1 becomes the binary16 0x3E00, of three bytes like the decimal |
| `DecimalChoice.TextFractionIsShortest` | cpp/conformance/pjson_conformance_driver.cpp:2613-2632 | what the only caller passes: for the text of every fraction that fits, a binary64 is found exactly if there is one, the choice is no longer than the decimal and than any floating-point number of the value, and it is the decimal if and only if that is strictly shorter than all of them |
| `DecimalFound.PowerIsMissed` | cpp/conformance/pjson_conformance_driver.cpp:2159-2165 | 2^60 with scale 0 is a number of 5 bytes, and the decimal of 10 bytes is chosen |
| `DecimalPick.ByteCountIs` | cpp/conformance/pjson_conformance_driver.cpp:545-555 | the byte count by leading zeros is the number of bytes written |
| `SoftFloat.RoundsCorrectly` | cpp/external/softfloat/psio_softfloat.h:191-241 | every binary128 but NaNs narrows to the nearest binary64, ties to even, subnormals and overflow to infinity as in section 4.3.1 of IEEE 754-2019; NaNs become quiet |
| `SoftFloat.NearestIsUnique` | cpp/external/softfloat/psio_softfloat.h:191-241 | that nearest number is unique, so the result is determined |
| `SoftFloat.SigIsJam` | cpp/external/softfloat/psio_softfloat.h:216-238 | the 128-bit shift with its sticky bit is the jammed significand |
| `SoftFloat.ShiftRightIsJam` | cpp/external/softfloat/psio_softfloat.h:136-142 | the 64-bit shift jams exactly the bits lost |
| `SoftFloat.JamJam` | cpp/external/softfloat/psio_softfloat.h:136-142 | jamming twice is jamming once by the product |
| `SoftFloat.JamRounds` | cpp/external/softfloat/psio_softfloat.h:151-184 | a jammed value rounds at ten bits as the exact one does |
| `ExactNarrow.ExactIffBinary64` | cpp/conformance/pjson_conformance_driver.cpp:718-788 | exact narrowing of a finite binary128 answers if and only if the value is a binary64, and then with the rounded result |

## Left out

- PjsonJs.JsEncodeValue: JavaScript `number` values are not modelled, since their shortest decimal text comes from the engine.
- Lz4SafeMethods.DecompressSafe: without the 64-byte fast loop that runs before the safe loop, and without the 32-bit tests for pointer overflow, which cannot fail on mathematical integers.
- Lz4Compress.Compress: one contiguous segment without dictionary; `fillOutput` and streaming state are not modelled, and the common bytes of two words are counted directly instead of by trailing zeros.
- FracView.ViewReads: for types without optional parts in fixed structs, where a failing view is told from a wrong value; `ViewShows` covers the other types without telling them apart.
- FracSize.MeasuresPacked: for lists of optional structs, tuples, variants, arrays, fixed structs of variable size and lists with offsets, `Exact` and `NotOver` hold of the empty list only; what the source measures for others depends on the bytes that follow.
- FracRun.RunKeepsGood: structs at base 0; a mutable view of a `fixedStruct`, which has no header and no left-out fields, and other bases are not modelled.
- FloatWidths.NarrowF64IsNarrowest: the hardware conversion to binary32 and back is modelled as the exact test it amounts to.
- Fracpack `map`: its bytes are those of a list of structs of key and value; the order and replacement of JavaScript properties are not modelled.
- Fracpack optionals of optionals, arrays of length 0 and fixed structs without fields.
- Extension of tuples by optional parts: the reader's loop is the struct's, for which `NewReadsOld` and `OldReadsNew` are stated.
- The typed-array fast path of vector views, and proxies: a view is modelled as what reading all of it gives.
- UTF-8 conversion of strings (in `js/src/fracpack.ts` the library's decoder, which drops a byte order mark at the start, comes after the reading modelled here), JSON text other than number strings, hexadecimal and base 64.
- PjsonAgree.DecodersAgree: one way for row arrays whose last key does not end behind as many bytes as all keys have: the decoders may still read the same value from them by chance, for one when there are no records.
- `estimate_encoded_size`: only a reservation hint.
- XXH3 and SeaHash: hashes are parameters.
- `%g` printing of floats in the driver and the shortest-decimal search in `js/src/pjson.ts`: library float printing.
- Number strings of 2^31 digits or more, whose scale would not fit 32 bits.
- `js/src/validate.ts`, `wit.ts`, `schema.ts`, `json.ts`, `varint.ts`, the benchmarks, packaging scripts and C++ template headers: text, timing and dispatch without further algorithms.
