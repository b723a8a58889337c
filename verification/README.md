# Verified models of three components

This project models three components of the repository in Dafny and proves what they are for. Each is plain buffer
code: arrays that are filled in place by nested loops. The loops are modelled as methods that are proved against
mathematical objects, and the main properties are proved about those objects for all inputs.

1. **The QR Code encoder** (`qrcodegen.c`). Texts become segments, a bit stream, data codewords, Reed-Solomon blocks,
   an interleaved message, modules placed in a zigzag, and a masked symbol. `EncodeSegmentsAdvanced` and `EncodeText`
   promise that a reader who knows only the layout of ISO/IEC 18004:2015 gets the segments, and the text, back from the
   finished symbol. What the encoder and that reader share, such as tables, field widths, patterns, masks, code words and
   the order of the modules, is pinned down separately by the values and laws of the standard. On the way, `reedSolomonMultiply` is shown to be the product of a field, the divisor to have the
   prescribed roots, the remainder to be that of polynomial division, and the blocks to have the minimum distance on
   which error correction rests.
2. **The streaming JSON generator** (`json_generator.c`). One flag replaces a stack, the buffer is flushed when full or
   truncated or absent, and what a document's calls write parses back to the document.
3. **The TLV8 commands** (`cmd_resp.c`). Values are split over records of 255 bytes and put together again, a slot
   table is a finite map, and every request gets exactly the reply that the registry, the access mask and the handler
   dictate.

## Layout

| files | what they hold |
|---|---|
| Algebra, Polynomials, ReedSolomon, MinimumDistance | field theory over any element type: products, division, generators, the Vandermonde argument |
| Bytes, GaloisField, PrimitiveElement, ReedSolomonBytes | the field of 256 bytes and the Reed-Solomon routines |
| Capacity, CapacityTables, Interleaving, ErrorCorrection | tables and what they amount to, block layout, the final message |
| BitBuffer, TextModes, Segments, EciSegments, BitStream, StandardExamples | bit strings, segments, the padded stream, their parser, and the standard's examples |
| Grid, FunctionModules, FunctionPatterns, ModuleCount, Zigzag, Masking, FormatInformation, FormatCode, VersionCode, MaskChoice | the modules of the symbol; `Black` is the set of black cells that a buffer shows |
| SymbolReader, Encoder, TextEncoder, TextCapacity | the reader, the encoder against it, and how much a symbol holds |
| JsonCalls, FlushLoop, JsonGenerator, JsonSession, JsonText, JsonWriting, JsonParser, JsonDocument | the calls, the copy loop, the generator object, whole runs, documents, the calls that write them, and their parser |
| Tlv, TlvBuffer, CommandRegistry, CommandProtocol, CommandHandler | records, their buffers, the slot table, messages, the dispatcher |
| Options, Sequences, Characters, Arithmetic | shared small definitions |

`dafny verify dfyconfig.toml` checks everything.

## Where the code falls short of its documentation

- The room check of `esp_rmaker_add_tlv` counts one record header, so for a value of more than 255 bytes it can pass
  although the records do not fit (`Tlv.RoomCheckSound`, `Tlv.RoomCheckFails`). `AddTlv` therefore asks its caller for
  room for every header. `prepare_response` has it exactly under the condition of `CommandProtocol.AllowanceExact`:
  for responses of up to 30 records beside any identifier (`ThirtyRecords`). A larger one passes the check and is
  written past the end of the buffer (`OversizedPassesCheck`, `OversizedInstance`).
- The request identifier is documented as up to 32 characters. With exactly 32 it has no terminator when its length is
  taken unless one of its bytes is zero; with more the request is refused as invalid (`CommandProtocol.IdentifierLimit`,
  `CommandProtocol.IdentifierInstance`). `ResponseHandler` asks for an identifier that ends.
- A value whose length is a positive multiple of 255 has no shorter record to close it. It is read back exactly if
  nothing follows it or what follows has another type or is empty; any other value always is (`Tlv.ReadBack`). A value
  of 255 bytes and one byte of the same type after it are read as one value (`Tlv.SameTypeInstance`).
- The JSON functions are documented to return -1 when the buffer is out of space. A call whose last string is empty
  returns 0 all the same (`JsonSession.EmptyStringHidesFailure`); `JsonSession.ResultsAt` says exactly when -1 is
  returned.
- With a flush function, the copy loop of the JSON generator ends exactly if the buffer has at least two bytes or there
  is nothing to copy (`FlushLoop.LoopEnds`); one character in a buffer of one byte is an instance that does not
  (`FlushLoop.OneByteInstance`). `AddToStr` asks for two bytes only when it has something to add.
- A float is printed into a local buffer of 30 bytes, so that 29 characters of it are written. Counting the sign, up to
  27 characters before the point leave a number with a fraction, exactly 28 leave a text that ends with the point and is
  no JSON, and more leave a whole number without the characters from the 30th on (`JsonParser.CutFloat`). The float
  nearest to -5e26 is an instance of 28 (`JsonParser.CutFloatInstance`). A float that is no number or infinite is written
  as `nan` or `inf`, with or without a sign, which is no JSON either (`JsonParser.NotANumber`).

## Model

| member | source | states |
|---|---|---|
| `GaloisField.ReedSolomonMultiply` | Software/bldc_sensorless/components/qrcode/src/qrcodegen.c:402-410 | the shift-and-reduce loop returns the product of the field GF(2^8)/0x11D |
| `GaloisField.BytesFormField` | Software/bldc_sensorless/components/qrcode/src/qrcodegen.c:402-410 | bytes with exclusive or and that product satisfy every field law, including that each nonzero byte has an inverse |
| `GaloisField.ProductUnique` | Software/bldc_sensorless/components/qrcode/src/qrcodegen.c:402-410 | the product is the only operation that is additive, commutes with doubling modulo 0x11D and has unit 1 |
| `ReedSolomonBytes.ReedSolomonComputeDivisor` | Software/bldc_sensorless/components/qrcode/src/qrcodegen.c:358-378 | for every degree, 1 followed by the result is the product of all (x - 2^i) with i below the degree |
| `ReedSolomonCode.GeneratorRoots` | Software/bldc_sensorless/components/qrcode/src/qrcodegen.c:358-378 | that product is zero at each of those 2^i |
| `ReedSolomonBytes.ReedSolomonComputeRemainder` | Software/bldc_sensorless/components/qrcode/src/qrcodegen.c:384-395 | for data of any length the result is the remainder of long division, also when data and result share a buffer |
| `ReedSolomonCode.Division` | Software/bldc_sensorless/components/qrcode/src/qrcodegen.c:384-395 | data(x) * x^degree = quotient(x) * g(x) + remainder(x), over any field and any monic g |
| `ReedSolomonCode.DivisionUnique` | Software/bldc_sensorless/components/qrcode/src/qrcodegen.c:384-395 | no other quotient and remainder of these lengths satisfy the equation |
| `ReedSolomonCode.EncodeIsCodeword` | Software/bldc_sensorless/components/qrcode/src/qrcodegen.c:384-395 | data followed by its remainder is zero at every root of the divisor |
| `MinimumDistance.Vandermonde` | Software/bldc_sensorless/components/qrcode/src/qrcodegen.c:358-395 | d power sums over at most d distinct locators vanish only for zero coefficients |
| `MinimumDistance.EncodeDistance` | Software/bldc_sensorless/components/qrcode/src/qrcodegen.c:358-395 | blocks with different data differ in more than degree codewords, in any field where the base has large enough order |
| `PrimitiveElement.TwoIsPrimitive` | Software/bldc_sensorless/components/qrcode/src/qrcodegen.c:367-377 | the powers of 2 that serve as roots are distinct up to exponent 255: the code keeps its full distance |
| `PrimitiveElement.BlockDistance` | Software/bldc_sensorless/components/qrcode/src/qrcodegen.c:358-395 | two blocks of at most 255 codewords with different data differ in more than degree codewords |
| `PrimitiveElement.BlockCorrectable` | Software/bldc_sensorless/components/qrcode/src/qrcodegen.c:358-395 | a block with at most degree/2 damaged codewords determines its data |
| `PrimitiveElement.BlockSyndromesCharacterise` | Software/bldc_sensorless/components/qrcode/src/qrcodegen.c:384-395 | the appended codewords are the only ones for which all syndromes are zero |
| `Capacity.EntriesOk` | Software/bldc_sensorless/components/qrcode/src/qrcodegen.c:97-116 | every entry of the two tables divides the codewords of its version into blocks that hold data and have at most 255 codewords |
| `CapacityTables.TableEntries` | Software/bldc_sensorless/components/qrcode/src/qrcodegen.c:97-116 | for each of the 160 pairs of version and level, the numbers of all codewords, of data codewords and of blocks are those of the standard's tables |
| `CapacityTables.LevelShares` | Software/bldc_sensorless/components/qrcode/src/qrcodegen.c:97-116 | in every version, the four levels spend 19 to 27, 35 to 39, 50 to 56 and 62 to 67 percent of the codewords on error correction |
| `CapacityTables.LevelsIncrease` | Software/bldc_sensorless/components/qrcode/src/qrcodegen.c:97-116 | a higher level has more codewords for error correction and fewer for data |
| `ErrorCorrection.LayoutSizes` | Software/bldc_sensorless/components/qrcode/src/qrcodegen.c:294-310 | short and long blocks use up raw and data codewords of the version exactly |
| `ErrorCorrection.LayoutOf5Quartile` | Software/bldc_sensorless/components/qrcode/src/qrcodegen.c:297-302 | version 5 at level QUARTILE has two blocks of 15 data codewords and then two of 16, each with 18 for error correction |
| `Interleaving.PosInverse` | Software/bldc_sensorless/components/qrcode/src/qrcodegen.c:311-321 | the place given to a codeword tells its block and its offset: no place is written twice |
| `Interleaving.PosOnto` | Software/bldc_sensorless/components/qrcode/src/qrcodegen.c:311-321 | every place of the sequence belongs to some codeword of some block: none is left out |
| `Interleaving.MessageAt` | Software/bldc_sensorless/components/qrcode/src/qrcodegen.c:311-321 | the places used by the two copy loops are those of the column-wise order that the standard prescribes |
| `Interleaving.DeinterleaveMessage` | Software/bldc_sensorless/components/qrcode/src/qrcodegen.c:311-321 | collecting the places of a block gives back its data and error correction codewords |
| `Interleaving.BlocksTile` | Software/bldc_sensorless/components/qrcode/src/qrcodegen.c:306-321 | the blocks are the data in order, without gap or overlap |
| `ErrorCorrection.AddBlock` | Software/bldc_sensorless/components/qrcode/src/qrcodegen.c:306-321 | one round of the loop fills exactly the places of one block and leaves the data that is still to be read |
| `ErrorCorrection.AddEccAndInterleave` | Software/bldc_sensorless/components/qrcode/src/qrcodegen.c:294-322 | the result is the final message for the data, nothing beyond it changes, and the data codewords survive the scratch area |
| `ErrorCorrection.FinalMessageBlocks` | Software/bldc_sensorless/components/qrcode/src/qrcodegen.c:294-322 | each de-interleaved block of the message is a Reed-Solomon codeword for that block of data |
| `ErrorCorrection.FinalMessageData` | Software/bldc_sensorless/components/qrcode/src/qrcodegen.c:294-322 | de-interleaving and dropping the error correction codewords returns the data |
| `ErrorCorrection.FinalMessageCorrectable` | Software/bldc_sensorless/components/qrcode/src/qrcodegen.c:294-322 | a message with at most ecc/2 damaged codewords in each block determines the data |
| `BitBuffer.AppendBitsToBuffer` | Software/bldc_sensorless/components/qrcode/src/qrcodegen.c:185-189 | ors exactly the bits of the value, most significant first, into the buffer and keeps every other bit |
| `BitBuffer.FromToBits` | Software/bldc_sensorless/components/qrcode/src/qrcodegen.c:185-189 | a value that fits its width is read back from its bits |
| `TextModes.NumericRoundTrip` | Software/bldc_sensorless/components/qrcode/src/qrcodegen.c:905-917 | decoding the 10-, 7- and 4-bit groups returns the digit string, for every length |
| `TextModes.NumericLength` | Software/bldc_sensorless/components/qrcode/src/qrcodegen.c:849-858 | the groups have exactly ceil(10n/3) bits in all |
| `TextModes.AlphanumericRoundTrip` | Software/bldc_sensorless/components/qrcode/src/qrcodegen.c:939-951 | decoding the 11- and 6-bit groups returns the text, for every length |
| `TextModes.AlphanumericLength` | Software/bldc_sensorless/components/qrcode/src/qrcodegen.c:849-860 | the groups have exactly ceil(11n/2) bits in all |
| `TextModes.CharValues` | Software/bldc_sensorless/components/qrcode/src/qrcodegen.c:92-94 | digits have their own value, letters follow from 10, and the nine other characters from 36 |
| `Segments.SegmentBitLength` | Software/bldc_sensorless/components/qrcode/src/qrcodegen.c:841-872 | ten bits for three digits and eleven for two characters, rounded up, eight for a byte, thirteen for a Kanji character, and -1 exactly above INT16_MAX |
| `Segments.MakeNumeric` | Software/bldc_sensorless/components/qrcode/src/qrcodegen.c:891-921 | the segment's buffer holds the groups of the digits, with the length announced by calcSegmentBitLength |
| `Segments.MakeAlphanumeric` | Software/bldc_sensorless/components/qrcode/src/qrcodegen.c:925-955 | the segment's buffer holds the groups of the characters, with the length announced by calcSegmentBitLength |
| `EciSegments.MakeEci` | Software/bldc_sensorless/components/qrcode/src/qrcodegen.c:959-982 | the buffer holds the designator with its prefix |
| `EciSegments.EciRoundTrip` | Software/bldc_sensorless/components/qrcode/src/qrcodegen.c:959-982 | every designator below one million is read back, and its prefix tells its length whatever follows |
| `EciSegments.EciLength` | Software/bldc_sensorless/components/qrcode/src/qrcodegen.c:959-982 | designators below 128 take one byte, below 16384 two, and the others three |
| `BitStream.GetTotalBits` | Software/bldc_sensorless/components/qrcode/src/qrcodegen.c:988-1006 | the sum of all headers and data, or -1 exactly if a count does not fit its field or the sum exceeds INT16_MAX |
| `Segments.CharCountWidths` | Software/bldc_sensorless/components/qrcode/src/qrcodegen.c:1011-1022 | the widths of the count field of each mode in versions 1 to 9, 10 to 26 and 27 to 40 |
| `StandardExamples.NumericExample` | Software/bldc_sensorless/components/qrcode/src/qrcodegen.c:891-921 | the digits 01234567 in version 1 give the stream of the standard's example |
| `StandardExamples.AlphanumericExample` | Software/bldc_sensorless/components/qrcode/src/qrcodegen.c:925-955 | the characters AC-42 in version 1 give the stream of the standard's example |
| `StandardExamples.ModeFirst` | Software/bldc_sensorless/components/qrcode/src/qrcodegen.c:231-235 | every segment begins with the four bits of its mode |
| `StandardExamples.ByteBits` | Software/bldc_sensorless/components/qrcode/src/qrcodegen.c:186-188 | the most significant bit of a byte comes first in the stream |
| `StandardExamples.PaddingLayout` | Software/bldc_sensorless/components/qrcode/src/qrcodegen.c:244-258 | after the stream come four zeros, zeros to the next codeword, and then the codewords 236 and 17 in turn up to the capacity |
| `StandardExamples.ShortTerminator` | Software/bldc_sensorless/components/qrcode/src/qrcodegen.c:247-251 | with room for fewer than four zeros, the terminator fills just that room |
| `TextCapacity.CountIsSmall` | Software/bldc_sensorless/components/qrcode/src/qrcodegen.c:993-996 | the check of the count never decides: whatever the mode, a segment whose bits fit into a symbol has a count that fits its field |
| `TextCapacity.BitsDecide` | Software/bldc_sensorless/components/qrcode/src/qrcodegen.c:988-1006 | consistent segments fit into a symbol exactly if their bits do |
| `BitStream.SelectVersion` | Software/bldc_sensorless/components/qrcode/src/qrcodegen.c:210-222 | the version is the smallest in the range that fits; there is none exactly if no version fits |
| `BitStream.BoostLevel` | Software/bldc_sensorless/components/qrcode/src/qrcodegen.c:225-228 | the level is never lowered, still fits, and no higher level would fit |
| `BitStream.ConcatenateSegments` | Software/bldc_sensorless/components/qrcode/src/qrcodegen.c:231-242 | the buffer holds mode, count and data bits of the segments in order, and zeros after them |
| `BitStream.AppendPadding` | Software/bldc_sensorless/components/qrcode/src/qrcodegen.c:245-256 | terminator, zero bits and alternating pad codewords fill the capacity exactly |
| `BitStream.PaddingEnds` | Software/bldc_sensorless/components/qrcode/src/qrcodegen.c:245-256 | a reader takes whatever padding was added for the end of the stream |
| `Segments.ParseStream` | Software/bldc_sensorless/components/qrcode/src/qrcodegen.c:231-242 | reading the bit stream gives back exactly the segments: mode, count and data bits |
| `Encoder.FitsIsStreamFits` | Software/bldc_sensorless/components/qrcode/src/qrcodegen.c:988-1006 | the overflow guard rejects nothing that would fit into a symbol |
| `Grid.GetModule` | Software/bldc_sensorless/components/qrcode/src/qrcodegen.c:770-775 | reads the module at the coordinates |
| `Grid.SetModule` | Software/bldc_sensorless/components/qrcode/src/qrcodegen.c:779-789 | sets or clears one module and leaves every other as it is |
| `Grid.GetSize` | Software/bldc_sensorless/components/qrcode/src/qrcodegen.c:752-758 | the side length that the symbol stores |
| `Grid.StorageExample` | Software/bldc_sensorless/components/qrcode/src/qrcodegen.c:770-775 | modules (1, 0) and (0, 1) of the smallest symbol lie in bit 1 of byte 1 and bit 5 of byte 3 |
| `FunctionPatterns.SetModuleBounded` | Software/bldc_sensorless/components/qrcode/src/qrcodegen.c:793-797 | sets or clears the module if it lies in the grid, and changes nothing otherwise |
| `Bytes.ShiftIsBit` | Software/bldc_sensorless/components/qrcode/src/qrcodegen.c:801-803 | shifting and masking with 1 is the bit test that the model uses for bytes |
| `FormatInformation.LowBitsShifted` | Software/bldc_sensorless/components/qrcode/src/qrcodegen.c:801-803 | the same for bits 0 to 4 of the format word |
| `FormatInformation.MiddleBitsShifted` | Software/bldc_sensorless/components/qrcode/src/qrcodegen.c:801-803 | the same for bits 5 to 9 of the format word |
| `FormatInformation.HighBitsShifted` | Software/bldc_sensorless/components/qrcode/src/qrcodegen.c:801-803 | the same for bits 10 to 14 of the format word |
| `FunctionModules.GetAlignmentPatternPositions` | Software/bldc_sensorless/components/qrcode/src/qrcodegen.c:550-560 | fills in increasing positions that start at 6 and are evenly spaced down from the far edge |
| `FunctionModules.AlignPosIncreasing` | Software/bldc_sensorless/components/qrcode/src/qrcodegen.c:550-560 | the positions are strictly increasing |
| `FunctionModules.AlignPosSpacing` | Software/bldc_sensorless/components/qrcode/src/qrcodegen.c:550-560 | in versions 7 to 40 but 32, the distances are equal and even but for the first, which is not longer, and no smaller even step would do |
| `FunctionModules.AlignPosOf32` | Software/bldc_sensorless/components/qrcode/src/qrcodegen.c:554-555 | the six positions of version 32 |
| `FunctionModules.FillRectangle` | Software/bldc_sensorless/components/qrcode/src/qrcodegen.c:564-569 | blackens exactly the rectangle |
| `FunctionModules.InitializeFunctionModules` | Software/bldc_sensorless/components/qrcode/src/qrcodegen.c:418-449 | clears the symbol and blackens exactly the function modules |
| `FunctionPatterns.DrawWhiteFunctionModules` | Software/bldc_sensorless/components/qrcode/src/qrcodegen.c:455-510 | gives every function module its final colour except the format information, and changes no other module |
| `FunctionPatterns.RedrawnSameData` | Software/bldc_sensorless/components/qrcode/src/qrcodegen.c:453-510 | redrawing leaves all data modules as they are |
| `FunctionPatterns.FinderShows` | Software/bldc_sensorless/components/qrcode/src/qrcodegen.c:463-475 | every finder pattern shows a dark square, a light ring, a dark ring and a light separator, in every version |
| `FunctionPatterns.TimingShows` | Software/bldc_sensorless/components/qrcode/src/qrcodegen.c:456-461 | the timing patterns alternate from end to end, unbroken by the alignment patterns drawn over them |
| `FunctionPatterns.AlignmentShows` | Software/bldc_sensorless/components/qrcode/src/qrcodegen.c:477-489 | every alignment pattern shows a dark centre, a light ring and a dark ring, undisturbed by any other pattern |
| `FunctionPatterns.VersionShows` | Software/bldc_sensorless/components/qrcode/src/qrcodegen.c:491-509 | both version blocks show the bits of the version word in the same order |
| `VersionCode.BitsOfVersion` | Software/bldc_sensorless/components/qrcode/src/qrcodegen.c:495-499 | the six data bits of a version word are the binary digits of the version |
| `VersionCode.EncodedWord` | Software/bldc_sensorless/components/qrcode/src/qrcodegen.c:495-499 | a version word is its data bits followed by their remainder |
| `VersionCode.Words7To15` | Software/bldc_sensorless/components/qrcode/src/qrcodegen.c:495-499 | the words of versions 7 to 15 are those of the standard's table |
| `VersionCode.Words16To24` | Software/bldc_sensorless/components/qrcode/src/qrcodegen.c:495-499 | the same for versions 16 to 24 |
| `VersionCode.Words25To32` | Software/bldc_sensorless/components/qrcode/src/qrcodegen.c:495-499 | the same for versions 25 to 32 |
| `VersionCode.Words33To40` | Software/bldc_sensorless/components/qrcode/src/qrcodegen.c:495-499 | the same for versions 33 to 40 |
| `VersionCode.VersionDistance` | Software/bldc_sensorless/components/qrcode/src/qrcodegen.c:495-499 | words of different versions differ in at least eight of their eighteen bits |
| `VersionCode.VersionCorrectable` | Software/bldc_sensorless/components/qrcode/src/qrcodegen.c:495-499 | a word with at most three wrong bits still names one version |
| `ModuleCount.FunctionCellsSize` | Software/bldc_sensorless/components/qrcode/src/qrcodegen.c:339-350 | the closed form of getNumRawDataModules is the number of modules that are not function modules, overlaps included |
| `ModuleCount.LightCount` | Software/bldc_sensorless/components/qrcode/src/qrcodegen.c:577-600 | the zigzag meets exactly that many light modules, each once |
| `Zigzag.ScanIsBijection` | Software/bldc_sensorless/components/qrcode/src/qrcodegen.c:577-600 | for every odd size the zigzag visits every cell outside column 6 exactly once |
| `Zigzag.ScanOrder` | Software/bldc_sensorless/components/qrcode/src/qrcodegen.c:577-600 | which cell comes at each step: pairs of columns from the right, upwards first, turning after each pair, the right cell of a row first, column 6 left out |
| `Zigzag.DrawCodewords` | Software/bldc_sensorless/components/qrcode/src/qrcodegen.c:577-600 | the i-th data bit lands on the i-th light cell of the zigzag, and no other module changes |
| `Zigzag.ReadDrawn` | Software/bldc_sensorless/components/qrcode/src/qrcodegen.c:577-600 | reading the light cells in the same order returns the bits |
| `Masking.ApplyMask` | Software/bldc_sensorless/components/qrcode/src/qrcodegen.c:608-631 | inverts exactly the data modules that the mask selects |
| `Masking.MaskTwice` | Software/bldc_sensorless/components/qrcode/src/qrcodegen.c:608-631 | applying a mask twice is the identity |
| `Masking.MaskZero` | Software/bldc_sensorless/components/qrcode/src/qrcodegen.c:617 | mask 0 is a chessboard that begins with an inverted module |
| `Masking.MaskOne` | Software/bldc_sensorless/components/qrcode/src/qrcodegen.c:618 | mask 1 inverts every other row, from the first |
| `Masking.MaskTwo` | Software/bldc_sensorless/components/qrcode/src/qrcodegen.c:619 | mask 2 inverts every third column, from the first |
| `Masking.MaskThree` | Software/bldc_sensorless/components/qrcode/src/qrcodegen.c:620 | mask 3 inverts every third diagonal, from the corner |
| `Masking.MaskFour` | Software/bldc_sensorless/components/qrcode/src/qrcodegen.c:621 | mask 4 is a chessboard of blocks three wide and two high that begins with an inverted block |
| `Masking.MaskFiveToSeven` | Software/bldc_sensorless/components/qrcode/src/qrcodegen.c:622-624 | masks 5 to 7 are symmetric, have period six, and show the given modules in the first period |
| `FormatInformation.DrawFormatBits` | Software/bldc_sensorless/components/qrcode/src/qrcodegen.c:516-543 | draws both copies of the format word and the dark module, and no other module |
| `FormatInformation.FormatUnique` | Software/bldc_sensorless/components/qrcode/src/qrcodegen.c:516-530 | different levels or masks have different format words |
| `FormatCode.FormatWords` | Software/bldc_sensorless/components/qrcode/src/qrcodegen.c:518-524 | the 32 words, one for each level and mask, are those of the standard's table |
| `FormatCode.FormatDistance` | Software/bldc_sensorless/components/qrcode/src/qrcodegen.c:518-524 | words of different levels or masks differ in at least seven of their fifteen bits |
| `FormatCode.FormatCorrectable` | Software/bldc_sensorless/components/qrcode/src/qrcodegen.c:518-524 | a word with at most three wrong bits still names one level and one mask |
| `MaskChoice.FirstCopyShows` | Software/bldc_sensorless/components/qrcode/src/qrcodegen.c:526-533 | which bit of the word each module around the first finder pattern shows in the finished symbol |
| `MaskChoice.SecondCopyShows` | Software/bldc_sensorless/components/qrcode/src/qrcodegen.c:535-541 | the same for the second copy, and the module that is always dark |
| `MaskChoice.FinishedSame` | Software/bldc_sensorless/components/qrcode/src/qrcodegen.c:266-282 | what drawFormatBits wrote in an earlier trial has no effect on the finished symbol |
| `MaskChoice.UnmaskFinished` | Software/bldc_sensorless/components/qrcode/src/qrcodegen.c:266-282 | undoing a trial mask restores everything but the format modules |
| `MaskChoice.ChooseMask` | Software/bldc_sensorless/components/qrcode/src/qrcodegen.c:266-279 | after eight trials the data modules are as before, and the mask is the first with the least penalty |
| `SymbolReader.DecodesUnique` | Software/bldc_sensorless/components/qrcode/src/qrcodegen.c:204-284 | a symbol has one version and one sequence of segments only |
| `SymbolReader.ReadEncoded` | Software/bldc_sensorless/components/qrcode/src/qrcodegen.c:204-284 | unmasking, de-interleaving and parsing the finished symbol recovers the segments |
| `SymbolReader.FinishedShowsPatterns` | Software/bldc_sensorless/components/qrcode/src/qrcodegen.c:259-282 | masking and format information leave the function patterns of the symbol intact |
| `SymbolReader.DamagedSymbol` | Software/bldc_sensorless/components/qrcode/src/qrcodegen.c:294-322 | if at most half the error correction codewords of every block are read wrongly from a damaged symbol, its contents are determined |
| `SymbolReader.FinishedCarries` | Software/bldc_sensorless/components/qrcode/src/qrcodegen.c:259-282 | the finished symbol carries the message that those results speak of: its data codewords are the padded stream of the contents |
| `Encoder.EncodeSegmentsAdvanced` | Software/bldc_sensorless/components/qrcode/src/qrcodegen.c:204-284 | succeeds exactly if some version in the range fits; then a reader recovers the segments from the symbol, its function modules show the patterns, version and level are as promised, and exactly one mask is on it |
| `TextEncoder.TextRoundTrip` | Software/bldc_sensorless/components/qrcode/src/qrcodegen.c:129-163 | whichever mode is chosen, the segment reads back as the text |
| `TextEncoder.IsNumericText` | Software/bldc_sensorless/components/qrcode/src/qrcodegen.c:821-827 | true exactly for strings of decimal digits |
| `TextEncoder.IsAlphanumericText` | Software/bldc_sensorless/components/qrcode/src/qrcodegen.c:810-817 | true exactly for strings over the 45 characters of the mode |
| `TextEncoder.MakeTextSegment` | Software/bldc_sensorless/components/qrcode/src/qrcodegen.c:137-158 | the segment in the densest mode that can hold the text, or none, and then its bits exceed the buffer or INT16_MAX |
| `TextEncoder.EncodeText` | Software/bldc_sensorless/components/qrcode/src/qrcodegen.c:129-163 | a text is encoded exactly if it fits, and the symbol decodes to it; otherwise the size byte is zero |
| `TextCapacity.TextFits` | Software/bldc_sensorless/components/qrcode/src/qrcodegen.c:988-1006 | a text fits into a symbol of a version and level exactly if mode, count and data bits, given as numbers, do not exceed the capacity of the standard's table |
| `TextCapacity.LongestText` | Software/bldc_sensorless/components/qrcode/src/qrcodegen.h:163-165 | with all versions allowed and the lowest level, texts are encoded exactly up to 7089 digits, 4296 alphanumeric characters or 2953 bytes |
| `TextEncoder.TextUnique` | Software/bldc_sensorless/components/qrcode/src/qrcodegen.c:129-163 | no symbol decodes to two different texts |
| `TextEncoder.EncodeBinary` | Software/bldc_sensorless/components/qrcode/src/qrcodegen.c:167-182 | bytes are encoded exactly if they fit, though their buffer is overwritten on the way |
| `TextCapacity.BytesFit` | Software/bldc_sensorless/components/qrcode/src/qrcodegen.c:988-1006 | bytes fit exactly if four bits, eight or sixteen more and eight for each do not exceed the capacity of the standard's table |
| `TextCapacity.LongestBytes` | Software/bldc_sensorless/components/qrcode/src/qrcodegen.h:186-187 | with all versions allowed and the lowest level, bytes are encoded exactly up to 2953 |
| `TextEncoder.BinaryRoundTrip` | Software/bldc_sensorless/components/qrcode/src/qrcodegen.c:167-182 | the segment reads back as the bytes |
| `JsonGenerator.Generator.AddToStr` | Software/bldc_sensorless/components/json_generator/upstream/json_generator.c:37-69 | the text grows by the string; with flushing, chunks and buffer together are the text and every chunk is full; without, the buffer holds the longest prefix that fits; -1 exactly if something non-empty was added and the text does not fit |
| `JsonGenerator.Generator.WriteOut` | Software/bldc_sensorless/components/json_generator/upstream/json_generator.c:47-68 | the copy loop ends, keeps that invariant and, when it flushes, takes the number of rounds that the sizes say |
| `FlushLoop.LoopEnds` | Software/bldc_sensorless/components/json_generator/upstream/json_generator.c:48-68 | with a flush function the copy loop ends exactly if the buffer has at least two bytes or there is nothing to copy |
| `FlushLoop.EndsOnce` | Software/bldc_sensorless/components/json_generator/upstream/json_generator.c:48-68 | there is only one number of rounds after which the copy loop is over, so the number that its method reports is the number of rounds |
| `FlushLoop.OneByteInstance` | Software/bldc_sensorless/components/json_generator/upstream/json_generator.c:48-68 | one character into a buffer of one byte: the loop never ends |
| `JsonGenerator.Generator.Flush` | Software/bldc_sensorless/components/json_generator/upstream/json_generator.c:56-64 | the flush function sees exactly the characters in the buffer, and nothing is lost |
| `JsonGenerator.Generator.StrStart` | Software/bldc_sensorless/components/json_generator/upstream/json_generator.c:72-81 | an empty text, no comma due, for every buffer of at least one byte and for none |
| `JsonGenerator.Generator.StrEnd` | Software/bldc_sensorless/components/json_generator/upstream/json_generator.c:83-93 | returns the text length plus one in every mode; the flushed chunks are the whole text, all full but the last; or the buffer is the terminated prefix |
| `JsonGenerator.Generator.HandleComma` | Software/bldc_sensorless/components/json_generator/upstream/json_generator.c:95-99 | writes a comma exactly if one is due |
| `JsonGenerator.Generator.HandleName` | Software/bldc_sensorless/components/json_generator/upstream/json_generator.c:102-107 | writes the quoted name and a colon |
| `JsonGenerator.Generator.StartObject` | Software/bldc_sensorless/components/json_generator/upstream/json_generator.c:110-115 | writes the comma that is due and a brace, and leaves no comma due |
| `JsonGenerator.Generator.StartArray` | Software/bldc_sensorless/components/json_generator/upstream/json_generator.c:124-129 | writes the comma that is due and a bracket, and leaves no comma due |
| `JsonGenerator.Generator.EndArray` | Software/bldc_sensorless/components/json_generator/upstream/json_generator.c:131-135 | writes the bracket and leaves a comma due |
| `JsonGenerator.Generator.PopObject` | Software/bldc_sensorless/components/json_generator/upstream/json_generator.c:145-149 | writes the brace and leaves a comma due |
| `JsonGenerator.Generator.PushObjectStr` | Software/bldc_sensorless/components/json_generator/upstream/json_generator.c:151-157 | writes comma, name and the given text |
| `JsonGenerator.Generator.PushArray` | Software/bldc_sensorless/components/json_generator/upstream/json_generator.c:159-165 | writes comma, name and bracket, and leaves no comma due |
| `JsonGenerator.Generator.PopArray` | Software/bldc_sensorless/components/json_generator/upstream/json_generator.c:166-170 | writes the bracket and leaves a comma due |
| `JsonGenerator.Generator.PushArrayStr` | Software/bldc_sensorless/components/json_generator/upstream/json_generator.c:172-178 | writes comma, name and the given text |
| `JsonGenerator.Generator.ObjSetBool` | Software/bldc_sensorless/components/json_generator/upstream/json_generator.c:188-193 | writes comma, name and literal |
| `JsonGenerator.Generator.ArrSetBool` | Software/bldc_sensorless/components/json_generator/upstream/json_generator.c:195-199 | writes comma and literal |
| `JsonGenerator.Generator.ObjSetInt` | Software/bldc_sensorless/components/json_generator/upstream/json_generator.c:209-214 | writes comma, name and decimal number |
| `JsonGenerator.Generator.ArrSetInt` | Software/bldc_sensorless/components/json_generator/upstream/json_generator.c:216-220 | writes comma and decimal number |
| `JsonGenerator.Generator.ObjSetFloat` | Software/bldc_sensorless/components/json_generator/upstream/json_generator.c:230-235 | writes comma, name and what is printed for the number, cut to 29 characters |
| `JsonGenerator.Generator.ArrSetFloat` | Software/bldc_sensorless/components/json_generator/upstream/json_generator.c:236-240 | writes comma and what is printed for the number, cut to 29 characters |
| `JsonGenerator.Generator.ArrSetString` | Software/bldc_sensorless/components/json_generator/upstream/json_generator.c:257-261 | writes comma and quoted value |
| `JsonGenerator.Generator.ArrStartLongString` | Software/bldc_sensorless/components/json_generator/upstream/json_generator.c:277-281 | writes comma, an opening quotation mark and the first part |
| `JsonGenerator.Generator.AddToLongString` | Software/bldc_sensorless/components/json_generator/upstream/json_generator.c:283-286 | writes the next part and leaves the flag as it is |
| `JsonGenerator.Generator.EndLongString` | Software/bldc_sensorless/components/json_generator/upstream/json_generator.c:288-291 | writes the closing quotation mark and leaves the flag as it is |
| `JsonGenerator.Generator.ObjSetNull` | Software/bldc_sensorless/components/json_generator/upstream/json_generator.c:297-302 | writes comma, name and null |
| `JsonGenerator.Generator.ArrSetNull` | Software/bldc_sensorless/components/json_generator/upstream/json_generator.c:304-308 | writes comma and null |
| `JsonGenerator.Generator.PushObject` | Software/bldc_sensorless/components/json_generator/upstream/json_generator.c:137-143 | writes comma, name and brace, and leaves no comma due |
| `JsonGenerator.Generator.EndObject` | Software/bldc_sensorless/components/json_generator/upstream/json_generator.c:117-121 | writes the brace and leaves a comma due |
| `JsonGenerator.Generator.ObjSetString` | Software/bldc_sensorless/components/json_generator/upstream/json_generator.c:250-255 | writes comma, name and quoted value |
| `JsonGenerator.Generator.ObjStartLongString` | Software/bldc_sensorless/components/json_generator/upstream/json_generator.c:270-275 | writes comma, name, an opening quotation mark and the first part |
| `JsonCalls.CommaIsTopOfStack` | Software/bldc_sensorless/components/json_generator/upstream/json_generator.c:95-193 | after any balanced run of calls the one flag tells whether the innermost open container has a member, at any depth |
| `JsonSession.ResultsAt` | Software/bldc_sensorless/components/json_generator/upstream/json_generator.c:48-68 | a call reports failure exactly if it ends with something non-empty and the text so far exceeds the room |
| `JsonSession.FailureSticks` | Software/bldc_sensorless/components/json_generator/upstream/json_generator.c:48-68 | once a call has failed, every later call that ends with something non-empty fails |
| `JsonSession.EmptyStringHidesFailure` | Software/bldc_sensorless/components/json_generator/upstream/json_generator.c:38-68 | a call that ends with an empty string returns 0 although the text was cut off |
| `JsonSession.LastResultDecides` | Software/bldc_sensorless/components/json_generator/upstream/json_generator.c:48-68 | the result of the last closing bracket is 0 exactly if nothing was cut off, and then every result was 0 |
| `JsonSession.Session` | Software/bldc_sensorless/components/json_generator/upstream/json_generator.c:72-93 | for any calls and any mode: the results, the length, what was flushed and what the buffer holds |
| `JsonSession.MeasureThenWrite` | Software/bldc_sensorless/components/json_generator/upstream/json_generator.c:42-93 | a buffer of the measured size takes the whole text: every call returns 0 and the buffer is the terminated text |
| `JsonCalls.IntTextFits` | Software/bldc_sensorless/components/json_generator/upstream/json_generator.c:201-207 | every 32-bit number fits into the local buffer and is written whole |
| `JsonParser.SnprintfWhole` | Software/bldc_sensorless/components/json_generator/upstream/json_generator.c:223-229 | a printed number is written whole exactly if it is shorter than the local buffer |
| `JsonParser.CutFloat` | Software/bldc_sensorless/components/json_generator/upstream/json_generator.c:223-229 | what is written for a float with a fraction, in the characters before the point, sign included: a number with a fraction exactly up to 27, no JSON with 28, a whole number cut short with more |
| `JsonParser.CutFloatInstance` | Software/bldc_sensorless/components/json_generator/upstream/json_generator.c:223-229 | a negative float with 27 digits before the point is written as a text that is no JSON |
| `JsonParser.NotANumber` | Software/bldc_sensorless/components/json_generator/upstream/json_generator.c:223-229 | what is printed for no number and for the infinities is written whole and is no JSON, whatever follows |
| `JsonWriting.RunWrites` | Software/bldc_sensorless/components/json_generator/upstream/json_generator.c:95-309 | every sequence of calls for a document, with strings whole or in pieces, containers built up or given as text, and either closing call, writes the comma that is due, the name and the RFC 8259 text |
| `JsonWriting.CallsForWrite` | Software/bldc_sensorless/components/json_generator/upstream/json_generator.c:110-309 | every valid document can be written |
| `JsonParser.ParsePrint` | Software/bldc_sensorless/components/json_generator/upstream/json_generator.c:95-309 | the text of a document, with anything after it that does not continue a number, parses to the document |
| `JsonDocument.DocumentRoundTrip` | Software/bldc_sensorless/components/json_generator/upstream/json_generator.c:95-309 | what any calls for a document write parses to that document and nothing is left over |
| `JsonDocument.OneDocument` | Software/bldc_sensorless/components/json_generator/upstream/json_generator.c:95-309 | no sequence of calls writes two documents |
| `JsonDocument.BalancedWrites` | Software/bldc_sensorless/components/json_generator/upstream/json_generator.c:95-309 | all calls for a document are well nested |
| `JsonDocument.WriteDocument` | Software/bldc_sensorless/components/json_generator/upstream/json_generator.c:72-309 | measuring and then writing a document by any calls for it leaves a buffer that, read as a C string, parses to it, and every call returns 0 |
| `JsonDocument.FlushDocument` | Software/bldc_sensorless/components/json_generator/upstream/json_generator.c:72-309 | written through a flushed buffer of any size from two bytes on, the chunks that the flush function receives, joined together, parse to the document, and every call returns 0 |
| `TlvBuffer.TlvData.AddTlv` | Software/bldc_sensorless/components/rmaker_common/src/cmd_resp.c:144-169 | with room for all fragment headers: returns the size, advances by it, appends exactly the records and changes no other byte; -1 changes nothing |
| `Tlv.EncodedSize` | Software/bldc_sensorless/components/rmaker_common/src/cmd_resp.c:144-169 | a value takes len + 2 * max(1, ceil(len / 255)) bytes |
| `Tlv.RoomCheckSound` | Software/bldc_sensorless/components/rmaker_common/src/cmd_resp.c:146-148 | the writer's check is enough, whatever the room, exactly for values of at most 255 bytes |
| `Tlv.RoomCheckFails` | Software/bldc_sensorless/components/rmaker_common/src/cmd_resp.c:146-148 | 256 bytes in a room of 258 pass the check but take 260 |
| `TlvBuffer.GetTlvLength` | Software/bldc_sensorless/components/rmaker_common/src/cmd_resp.c:67-100 | the length of what a scan finds, on any buffer whose visited headers are complete |
| `TlvBuffer.GetValueFromTlv` | Software/bldc_sensorless/components/rmaker_common/src/cmd_resp.c:106-141 | copies exactly what a scan finds if it fits, and returns its length; otherwise -1 |
| `TlvBuffer.ReadAll` | Software/bldc_sensorless/components/rmaker_common/src/cmd_resp.c:67-141 | a destination of the length that the first scanner announces takes exactly the value |
| `TlvBuffer.ScanBoth` | Software/bldc_sensorless/components/rmaker_common/src/cmd_resp.c:67-141 | for any destination the second scanner returns -1 exactly if the first does or the value does not fit, and otherwise the same length |
| `Tlv.WriteThenRead` | Software/bldc_sensorless/components/rmaker_common/src/cmd_resp.c:106-169 | write, then read is the identity for a value of any length, after records of other types, if the next record has another type or the value does not fill its last record |
| `Tlv.ReadBack` | Software/bldc_sensorless/components/rmaker_common/src/cmd_resp.c:106-169 | between other records, none of its type before it, a value is read back exactly if it does not fill its last record, or nothing follows, or what follows has another type or is empty |
| `Tlv.SameTypeInstance` | Software/bldc_sensorless/components/rmaker_common/src/cmd_resp.c:106-169 | 255 bytes and one byte of the same type after them are read as one value of 256 bytes |
| `Tlv.ReadDistinct` | Software/bldc_sensorless/components/rmaker_common/src/cmd_resp.c:106-169 | in a message whose records have different types every value is read back |
| `Tlv.U16RoundTrip` | Software/bldc_sensorless/components/rmaker_common/src/cmd_resp.c:35-53 | a 16-bit number is read back from its two bytes |
| `CommandRegistry.Registry.Register` | Software/bldc_sensorless/components/rmaker_common/src/cmd_resp.c:240-268 | fails exactly if a slot holds the command, succeeds exactly if none does, a slot is free and there is memory, and then fills the first free slot; else there is no memory; the map follows |
| `CommandRegistry.Registry.Deregister` | Software/bldc_sensorless/components/rmaker_common/src/cmd_resp.c:288-300 | succeeds exactly if a slot holds the command, and then empties it; else the argument is invalid; the map follows |
| `CommandRegistry.Registry.GetCmdInfo` | Software/bldc_sensorless/components/rmaker_common/src/cmd_resp.c:274-285 | looks the command up in the map |
| `CommandRegistry.UsedIsSize` | Software/bldc_sensorless/components/rmaker_common/src/cmd_resp.c:249-267 | the map has as many commands as slots are used |
| `CommandRegistry.RunOperations` | Software/bldc_sensorless/components/rmaker_common/src/cmd_resp.c:240-300 | any run of registrations and deregistrations is the run of a bounded finite map, status by status |
| `CommandRegistry.LookupIsLastRegistered` | Software/bldc_sensorless/components/rmaker_common/src/cmd_resp.c:240-300 | after any run, looking up gives what was registered and not deregistered since, and nothing else |
| `CommandRegistry.Bounded` | Software/bldc_sensorless/components/rmaker_common/src/cmd_resp.c:240-268 | no run ever holds more commands than there are slots |
| `CommandProtocol.RequestContext` | Software/bldc_sensorless/components/rmaker_common/src/cmd_resp.c:311-316 | the handler reads exactly the identifier up to its end, the role and the command of a request |
| `CommandProtocol.ShortIdentifier` | Software/bldc_sensorless/components/rmaker_common/src/cmd_resp.c:311-318 | an identifier of up to 31 bytes without zeros is seen as it is |
| `CommandProtocol.IdentifierLimit` | Software/bldc_sensorless/components/rmaker_common/src/cmd_resp.c:311-321 | after reading, the identifier has no end exactly if it has 32 bytes and no zero; with a longer one the request is refused as invalid and no handler is called |
| `CommandProtocol.IdentifierInstance` | Software/bldc_sensorless/components/rmaker_common/src/cmd_resp.c:311-321 | an identifier of 32 bytes that are not zero has no end after reading |
| `CommandProtocol.ReplyRoundTrip` | Software/bldc_sensorless/components/rmaker_common/src/cmd_resp.c:193-217 | a reply is understood as it was meant, whatever the lengths of its parts |
| `CommandProtocol.ReplySize` | Software/bldc_sensorless/components/rmaker_common/src/cmd_resp.c:193-217 | the size of a reply |
| `CommandProtocol.AllowanceExact` | Software/bldc_sensorless/components/rmaker_common/src/cmd_resp.c:195 | for every reply: it fits exactly if the allowance covers identifier, status, command and the headers of the data |
| `CommandProtocol.ThirtyRecords` | Software/bldc_sensorless/components/rmaker_common/src/cmd_resp.c:195 | 30 records of data fit beside every identifier, and no more beside one of 31 bytes |
| `CommandProtocol.OversizedPassesCheck` | Software/bldc_sensorless/components/rmaker_common/src/cmd_resp.c:146-148 | the check before the data always passes, and the data fits exactly if the reply does: what does not fit is written all the same |
| `CommandProtocol.OversizedInstance` | Software/bldc_sensorless/components/rmaker_common/src/cmd_resp.c:193-217 | an identifier of 31 bytes and 7651 bytes of data pass every check and take two bytes more than were allocated |
| `CommandProtocol.Dispatch` | Software/bldc_sensorless/components/rmaker_common/src/cmd_resp.c:307-362 | for every request whose identifier ends: the reply has its identifier and command, the numeric status that registry, flags and handler dictate, and the handler, called exactly if access mask and role have a flag in common, gets the request's data |
| `CommandProtocol.PermitsCommonFlag` | Software/bldc_sensorless/components/rmaker_common/src/cmd_resp.c:328 | access is granted exactly if some flag is set both in the access mask and in the role |
| `CommandProtocol.RolesApart` | Software/bldc_sensorless/components/rmaker_common/include/esp_rmaker_cmd_resp.h:18-25 | super admin, primary user and secondary user are let in by the flags 1, 2 and 4 |
| `CommandProtocol.RoleRefused` | Software/bldc_sensorless/components/rmaker_common/src/cmd_resp.c:328 | a command for the primary user refuses the secondary user |
| `CommandProtocol.RequestOnWire` | Software/bldc_sensorless/components/rmaker_common/src/cmd_resp.c:382-394 | a short request byte by byte: the types 1, 2, 5 and 6, lengths, and the low byte of the command first |
| `CommandProtocol.ReplyOnWire` | Software/bldc_sensorless/components/rmaker_common/src/cmd_resp.c:193-216 | a short reply byte by byte: the types 1, 3, 5 and 6, lengths, and the low byte of the command first |
| `CommandHandler.PrepareResponse` | Software/bldc_sensorless/components/rmaker_common/src/cmd_resp.c:193-217 | the output is the encoding of the reply, within the allocated buffer |
| `CommandHandler.PrepareEmptyResponse` | Software/bldc_sensorless/components/rmaker_common/src/cmd_resp.c:219-236 | an empty identifier and command 0 fill the six bytes exactly |
| `CommandHandler.ResponseHandler` | Software/bldc_sensorless/components/rmaker_common/src/cmd_resp.c:307-362 | one reply, the one prescribed, and at most one handler call |
| `CommandHandler.BuildRequest` | Software/bldc_sensorless/components/rmaker_common/src/cmd_resp.c:374-396 | sends the records that fit, one after the other, leaving out the others, and never writes past its 200 bytes; the identifier may be absent |
| `CommandHandler.FilledWhole` | Software/bldc_sensorless/components/rmaker_common/src/cmd_resp.c:374-396 | a request that fits is sent whole |
| `CommandHandler.Exchange` | Software/bldc_sensorless/components/rmaker_common/src/cmd_resp.c:307-396 | from building a request to decoding the reply: the reply is the prescribed one and the handler got the request's data |

## Left out

- GetValueFromTlv: does not say what a destination of 255 bytes or more holds after a failure, because the source leaves the fragments copied so far.
- AddTlv: asks for room for all record headers when its check passes, because the source writes past its buffer otherwise; a negative length is not modelled, and the value is given as a sequence that does not share memory with the buffer.
- GetTlvLength: asks that the record headers it visits are complete, because the source reads past the input otherwise; GetValueFromTlv asks the same.
- ReadAll: asks for complete record headers for the same reason.
- ScanBoth: asks for complete record headers for the same reason.
- PrepareResponse: asks that the reply fits, because the source writes past its buffer otherwise.
- ResponseHandler: asks for complete headers, an identifier that ends and a reply that fits, for the same reasons.
- Exchange: is about requests that fit their 200 bytes, with an identifier that ends and responses that fit, because the handler is modelled for those only; BuildRequest says what becomes of records that do not fit.
- EncodeSegmentsAdvanced: the penalty of a symbol is a parameter, any function of its modules below LONG_MAX; getPenaltyScore itself (lines 636 to 747) is not modelled.
- Kanji segments have no constructor in the source; the reader knows their length, but no text is given for them.
- encodeSegments is encodeSegmentsAdvanced with fixed arguments, makeBytes a copy; neither has a member of its own.
- Integers are unbounded. Sums that the source bounds by an assertion or by INT16_MAX are bounded here too; a JSON text of more than INT_MAX characters is not considered.
- What "%.*f" prints for a float is an argument of the emitters; which float it stands for, and rounding, are not modelled.
- The JSON generator escapes nothing, so documents have names and strings without quotation mark, reverse solidus or control character. The parser reads texts without white space and escapes.
- Null as the first argument of a JSON function and the private data of the flush function are not modelled.
- Command handlers are a function of their arguments. A handler that registers or deregisters commands while it runs, the freeing of its response, the failing allocations of the dispatcher and log output are not modelled.
- DecodeReply: stands for the receiving half of the test functions (esp_rmaker_cmd_resp_parse_response) and takes fields of any length; that receiver reads into 32, 2, 1 and 200 bytes, so ReplyRoundTrip says more than it does for longer fields.
- Motor control, schedules, Wi-Fi, MQTT, storage, claiming and the command line tools are not part of this model.
