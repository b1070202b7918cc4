# xmlsec: buffers, base64, big numbers, key values and key lookup

A Dafny model of the byte-level core of the XML Security Library and proofs about it. The model covers

- the growable octet buffer (`src/buffer.c`),
- the streaming base64 codec, its one-shot entry points and its transform (`src/base64.c`),
- big-endian numbers with arithmetic by a small operand, reading, printing and comparison (`src/bn.c`),
- RSA and DSA key values written to and read from XML elements (`src/keysdata.c`),
- key data lists, key matching, key copying and the two stores keys are looked up in (`src/keys.c`, `src/keysmngr.c`).

`dafny verify dfyconfig.toml` checks everything.

## Main results

- **Base64 round trip.** For every split of the octets into encoder calls, every line length and every split of
  the text into decoder calls, decoding the encoded text gives the octets back (`RoundTrip`).
- **Decoder language.** A text is accepted exactly when, whitespace aside, it is complete groups of which only the
  last may be padded (`DecoderLanguage`, `DecodeInto`). Re-encoding gives the text without whitespace back exactly
  when the unused bits of the last group are zero (`Reencode`, on characters).
- **Encoder text.** Any run of updates and a final call write the base64 of RFC 4648 section 4, in lines with a
  newline at exactly every (columns + 1)-th position and none at the end (`EncoderWritesBase64`, `EncoderLayout`).
- **In-place decoding.** Decoding an array over itself meets the same contract as decoding into another array; the
  write index never passes the read index (`DecodeLoop`, `DecodeInPlace`).
- **Transform runs.** A run of the transform ends with the codec applied to the concatenated input. A decoding run
  succeeds exactly on well-formed texts; an encoding run exactly when every chunk meets its allotment (`DecodeAll`,
  `EncodeAll`).
- **Numbers.** Multiplication, addition and division by a small operand are exact on numbers of any length.
  Reading and printing are inverse to each other, with the exact conditions for negative numbers (`FromString`,
  `ToString`, `PrintAndRead`, `ReadAndPrint`).
- **Buffers.** Any run of operations on two buffers, swaps included, whose `SetSize` calls never cut is the same run
  on two plain sequences, and keeps all slack zero (`RunPair`).
- **Key values.** What the RSA and DSA writers produce reads back as the same components (`RsaWriteAndRead`,
  `DsaWriteAndRead`).
- **Lookup.** Over any history a key's data list and a manager's store list behave as maps, and the simple key store
  finds the first adopted key that matches, if there is one (`RunData` with `RunFinds`, `AdoptDataStore`, `FindKey`).

## How the source is represented

- Octets are integers 0..255. The bit macros of the codec are written with division and remainder, and
  `Base64Bits` proves them equal to the shifts and masks of the C macros.
- The codec's character tables are `Code` and `Symbol`: 0..63 for letters, then one code each for padding,
  whitespace and all other characters.
- A pointer and a length into an output buffer are an array, an offset and a length. A null data pointer is an array
  of length 0. The process-wide initial buffer size is a constant of each buffer.
- Every class method that changes state is proved against a function on values: `EncodeStep`, `DecodeStep`,
  `Output`, `RunWithin` for the codec, `Apply` for the buffer, `Put` and `Latest` for the lists.
- Sizes and C integers are unbounded. Separate lemmas give limits within which the intermediate values of
  the C code fit a 32-bit int or a size of any width (`MulFitsInt`, `AddFitsInt`, `DivFitsInt`, `EncodeSizeFits`,
  `AllotmentFits`, `AllocationFits`).
- An XML node is its list of children, elements with character content or text nodes.
- Parameters stand for what lies outside: the line feed string, the line size and the line break flag of the
  writers, the klass functions that create and copy key data, and the copy function's promise to keep klass, type
  and size.
- Failed assertions about null pointers and failed allocations are not modelled; every other error return is.

## Where a natural claim does not hold

The model follows the code. Each case below names the member that proves the exact condition and, where the condition
is not already a single input, one that gives a concrete input.

- `xmlSecBnCompare` is documented to return a positive value when the number is greater. It returns -1 when the
  number has more significant octets than non-zero data. Equality is always right (`Compare`, `MisorderedExample`).
- `xmlSecBnAdd` with a negative delta does not propagate borrows. The result is the difference exactly when the
  number ends in the octets of the amount, its octet in the place of the first of them being no smaller; for an amount
  of one octet, when its last octet is no smaller (`SubtractionExact`, `LostBorrow`).
- Reading `-0` or `-` gives 256 instead of 0 (`FromString`, `ReadAndPrint`, `NegatedZero`).
- A negative number whose magnitude is a multiple of 256 is printed one too large (`ReadThenPrint`, `PrintsWrong`).
- `xmlSecBnDiv` by 1 leaves the remainder unset, although the documentation says it is stored (`Div`, its clause for
  dividers up to 1).
- Growing a buffer by `xmlSecBufferSetSize` shows what the slack holds. That is not always zero: the same function
  leaves the octets it cuts, and the codec writes behind the contents before it knows whether it succeeds (`SetSize`,
  `CutAndGrow`, `StaleOctet`).
- The decoder ignores the unused bits of a padded group (`Reencode`, `LeftoverBitsAreLost`).
- The transform's encode allotment counts line breaks by input octets. Whether a run succeeds
  depends on the chunk lengths alone: exactly when what each chunk adds to the characters written, a closed form of the
  octets so far, is within its allotment (`LengthsFit`, `AllFitByLengths`, `EncodeAll`). That
  is so without line breaks and for chunks of at most 27 lines' worth of octets, and not for 42 octets in lines of one
  character (`EncodeAllotmentSuffices`, `EncodeAllotmentFallsShort`).

## Model

| member | source | states |
|---|---|---|
| `Buffers.Buffer.Initialize` | src/buffer.c:110-119 | a new buffer is empty, has the room asked for, and its slack is zero |
| `Buffers.Buffer.SetMaxSize` | src/buffer.c:273-316 | the room grows and never shrinks, the contents stay, and after a reallocation the slack is zero |
| `Buffers.Buffer.SetSize` | src/buffer.c:231-246 | the new contents, and that growing appends zeros exactly when it reallocates or the slack exposed was zero |
| `Buffers.CutAndGrow` | src/buffer.c:231-246 | cutting and growing again is what it is on a sequence exactly when it reallocates or everything exposed was zero |
| `Buffers.StaleOctet` | src/buffer.c:231-246 | a buffer of one octet, cut to nothing and grown to one, shows that octet where a sequence has a zero |
| `Buffers.AllocationFits` | src/buffer.c:283-290 | the largest requests whose allocation stays within a limit |
| `Buffers.Buffer.Empty` | src/buffer.c:146-156 | no contents, all octets zero |
| `Buffers.Buffer.SetData` | src/buffer.c:183-204 | the contents are the given octets, slack zero |
| `Buffers.Buffer.Append` | src/buffer.c:348-369 | the octets follow the old contents; a clean slack stays clean |
| `Buffers.Buffer.Prepend` | src/buffer.c:381-403 | the octets precede the old contents although both share the array; a clean slack stays clean |
| `Buffers.Buffer.RemoveHead` | src/buffer.c:414-431 | the first octets are gone, everything for a count past the size; slack zero |
| `Buffers.Buffer.RemoveTail` | src/buffer.c:442-456 | the last octets are gone, everything for a count past the size; slack zero |
| `Buffers.Buffer.Reverse` | src/buffer.c:466-491 | the two-pointer loop reverses the contents and leaves the slack alone |
| `Buffers.Buffer.Swap` | src/buffer.c:327-336 | contents, arrays and slack change places, also of a buffer with itself |
| `Buffers.RunPair` | src/buffer.c:110-491 | any run on two buffers, swaps included, without a cutting SetSize equals the run on two plain sequences, and keeps sizes within room, slack zero and the arrays apart |
| `Buffers.RunOne` | src/buffer.c:146-491 | the same for a run on one buffer |
| `Buffers.OnlyCutsAreExcluded` | src/buffer.c:231-246 | a run is outside these results exactly when one of its SetSize calls goes below the size it meets |
| `Base64Spec.CodeSymbol` | src/base64.c:36-47 | the decoder's classification of a letter or pad of the table is its index, and no such character is NUL |
| `Base64Spec.SymbolCode` | src/base64.c:60-65 | every character classified as a letter or pad is the table's entry for it |
| `Base64Spec.Alphabet` | src/base64.c:35-46 | the characters of the table by name, and '=' for padding |
| `Base64Spec.Whitespace` | src/base64.c:60-65 | the line break is a newline; tab, newline, carriage return and space alone are whitespace; what is no base64 character |
| `Base64Spec.FieldsAre24Bits` | src/base64.c:51-54 | the four encoder fields are the base-64 digits of the 24-bit number of three octets |
| `Base64Spec.OctetsAre24Bits` | src/base64.c:56-58 | the three decoder octets are the base-256 digits of the 24-bit number of four fields |
| `Base64Bits.Encode1Macro` | src/base64.c:51-51 | the shift and mask macro equals the arithmetic form for every octet |
| `Base64Bits.Encode2Macro` | src/base64.c:52-52 | the same for the second field |
| `Base64Bits.Encode3Macro` | src/base64.c:53-53 | the same for the third field |
| `Base64Bits.Encode4Macro` | src/base64.c:54-54 | the same for the fourth field |
| `Base64Bits.Decode1Macro` | src/base64.c:56-56 | the decoding macro equals the arithmetic form for all 6-bit values |
| `Base64Bits.Decode2Macro` | src/base64.c:57-57 | the same for the second octet |
| `Base64Bits.Decode3Macro` | src/base64.c:58-58 | the same for the third octet |
| `Base64Laws.DecodeEncoded` | src/base64.c:312-444 | reference encoding is well formed, leaves no bits over and decodes to the octets |
| `Base64Laws.ReencodeDecoded` | src/base64.c:425-434 | encoding the decoded octets gives the text back exactly when the leftover bits are zero |
| `Base64Laws.CodesOfUnspaced` | src/base64.c:64-65 | dropping whitespace characters from a text and whitespace codes from its codes is the same |
| `Base64Laws.ReencodeText` | src/base64.c:382-434 | encoding what a well-formed text stands for gives its characters without whitespace exactly when the leftover bits are zero |
| `Base64Laws.LeftoverBitsAreLost` | src/base64.c:425-434 | two different texts decode to the same octet |
| `Base64Laws.EncodedLength` | src/base64.c:582-593 | encoded text has four characters for every started group of three octets |
| `Base64Laws.EncodedAt` | src/base64.c:320-380 | every group of the encoding is the base-64 digits of its 24-bit number, padding where no input bit is held |
| `Base64Laws.WellFormedAtSight` | src/base64.c:382-444 | well-formed is: a multiple of four, letters up to the last two, which are letters, a letter and a padding, or paddings |
| `Base64Laws.DecodedAt` | src/base64.c:421-440 | every group decodes to the octets of its 24-bit number, one less for each padding |
| `Base64Laws.ZeroLeftoverAtSight` | src/base64.c:425-434 | the leftover bits are the low 4 or 2 of the last letter |
| `Base64Laws.StrippedWrap` | src/base64.c:317-320 | line breaks disappear from wrapped text once whitespace is dropped |
| `Base64Laws.DecodeWrapped` | src/base64.c:312-573 | wrapped base64 is well formed and decodes to the octets |
| `Base64Laws.WrapLayout` | src/base64.c:317-320 | newlines stand exactly at the positions that end a full line, never last |
| `Base64Laws.WrapAt` | src/base64.c:317-320 | character i of a text stands behind i / columns line breaks |
| `Base64Laws.WrapLength` | src/base64.c:582-593 | the number of characters of wrapped text |
| `Base64StreamLaws.EncodeStepMeaning` | src/base64.c:312-350 | a step writes the first character owed and the rest is owed by the new state |
| `Base64StreamLaws.EncodeFinalStepMeaning` | src/base64.c:352-380 | a final step writes the next character of the completed group, or is done |
| `Base64StreamLaws.OutputConcat` | src/base64.c:447-484 | consuming a and then b writes what a + b writes and ends in the same state |
| `Base64StreamLaws.EncoderChunkIndependence` | src/base64.c:241-267 | any partition of the input gives the output and state of a single update |
| `Base64StreamLaws.EncoderWritesBase64` | src/base64.c:447-525 | updates over any chunks and Final write the wrapped base64 of the whole input |
| `Base64StreamLaws.EncoderLayout` | src/base64.c:312-380 | without newlines the text is the reference encoding; lines are full but the last; no trailing newline |
| `Base64StreamLaws.RunConcat` | src/base64.c:382-444 | a decoder run over a + b is the run over a continued over b unless a was refused, also after padding |
| `Base64StreamLaws.DecoderChunkIndependence` | src/base64.c:241-267 | any partition of the text gives the output, state and verdict of a single update |
| `Base64StreamLaws.RunSkipsSpaces` | src/base64.c:382-444 | whitespace anywhere changes neither output, state nor verdict |
| `Base64StreamLaws.RunWithinIsRun` | src/base64.c:528-573 | the decoding loop with limited room agrees with the unlimited run until the room is used up |
| `Base64StreamLaws.RunThatFits` | src/base64.c:528-573 | with a position to spare the loop's verdict, output and state are the unlimited run's; otherwise it fills the room |
| `Base64StreamLaws.RunIsDecoded` | src/base64.c:382-444 | from the start of a group exactly the well-formed texts are accepted, with the reference octets |
| `Base64StreamLaws.DecoderLanguage` | src/base64.c:528-580 | any chunking of a text is accepted exactly when the text without whitespace is well formed, and gives its octets |
| `Base64StreamLaws.RoundTrip` | src/base64.c:312-573 | octets in any chunks, any line length, text in any chunks: decoding gives the octets back |
| `Base64StreamLaws.Reencode` | src/base64.c:382-444 | re-encoding an accepted text, in any chunks, gives its characters without whitespace back exactly when its leftover bits are zero |
| `Base64Context.Ctx.Initialize` | src/base64.c:204-213 | a context starts at the beginning of a group and of a line; refused exactly for a negative line length |
| `Base64Context.Ctx.Create` | src/base64.c:157-178 | a fresh initialized context, or nothing exactly for a negative line length |
| `Base64Context.Ctx.EncodeByte` | src/base64.c:312-350 | one encoder call is one step of the machine |
| `Base64Context.Ctx.EncodeByteFinal` | src/base64.c:352-380 | one final call is one final step of the machine |
| `Base64Context.Ctx.DecodeByte` | src/base64.c:382-444 | one decoder call is one step of the machine, refusals included |
| `Base64Context.Ctx.Encode` | src/base64.c:447-484 | writes the longest prefix that fits of what is owed; consumes everything exactly when it fits; otherwise the rest is owed for the input not consumed; nothing else is written |
| `Base64Context.Ctx.EncodeFinal` | src/base64.c:486-525 | succeeds exactly when the room exceeds what completes the group, which it then writes followed by NUL |
| `Base64Context.Ctx.DecodeLoop` | src/base64.c:528-562 | the loop stops where the limited run stops; the unread text is intact even when it shares the output array |
| `Base64Context.Ctx.Decode` | src/base64.c:528-573 | verdict, octets, state and consumption are those of the limited run on the original text, trailing spaces included; octets and state also on a refusal |
| `Base64Context.Ctx.SkipSpaces` | src/base64.c:564-567 | the end is reached exactly when only whitespace is left |
| `Base64Context.Ctx.UpdateEncoding` | src/base64.c:241-267 | succeeds exactly when the output fits, and then writes it and moves to the state after the input |
| `Base64Context.Ctx.UpdateDecoding` | src/base64.c:241-267 | with a position to spare it is the unlimited run; without, it fills the room and succeeds exactly when only whitespace is left; the state is given also on a refusal |
| `Base64Context.Ctx.Final` | src/base64.c:281-310 | when it succeeds for an encoder and for a decoder, what it writes, and where it puts a NUL |
| `Base64Context.EncodeSizeSuffices` | src/base64.c:582-593 | the allocation exceeds the text for every input length and line length |
| `Base64Context.EncodeSizeFits` | src/base64.c:582-593 | the allocation stays within a limit that 4 * inLen stays within |
| `Base64Context.EncodeWhole` | src/base64.c:639-651 | Update and Final succeed together exactly when the array is longer than the wrapped text |
| `Base64Context.EncodingSpelled` | src/base64.c:312-380 | wrapped base64, character by character: newlines (10) at the ends of full lines only, and the named letters of every group in their places |
| `Base64Context.Encode` | src/base64.c:609-666 | a fresh C string with the wrapped base64 of the input, spelled out character by character, in an allocation of the stated size; refused only for a negative line length |
| `Base64Context.DecodeInto` | src/base64.c:680-722 | succeeds exactly when the text is well formed and the room exceeds its octets, also when input and output are one array |
| `Base64Context.OneShotLanguage` | src/base64.c:680-722 | a fresh context accepts and closes exactly the well-formed texts |
| `Base64Context.DecodeInPlace` | src/base64.c:733-737 | decoding a C string over itself succeeds exactly on well-formed text and leaves octets and NUL; the room always suffices |
| `Base64Context.EncodeThenDecode` | src/base64.c:609-737 | decoding in place what was encoded restores the octets |
| `Base64Context.DecodedIsShorter` | src/buffer.c:576-577 | decoded octets are fewer than the characters of a non-empty text |
| `Base64Transforms.OutputHasLength` | src/base64.c:447-484 | the exact number of characters written for n octets, line breaks included |
| `Base64Transforms.EncodeAllotmentSuffices` | src/base64.c:879-883 | the allotment covers every chunk without line breaks and every chunk of at most 27 lines' worth of octets |
| `Base64Transforms.EncodeAllotmentFallsShort` | src/base64.c:879-883 | 42 octets in lines of one character need more than their allotment |
| `Base64Transforms.AllotmentFits` | src/base64.c:879-886 | allotments stay within a limit that four times the chunk length stays within |
| `Base64Transforms.AllFitByLengths` | src/base64.c:879-883 | a run meets its allotments exactly when what each chunk adds to the characters written, by lengths alone, is within its allotment |
| `Base64Transforms.RoomForChunk` | src/base64.c:879-883 | the room for a chunk written out, and that a chunk fits exactly when its output does |
| `Base64Transforms.NextChunkFits` | src/base64.c:879-883 | the condition on the next chunk of any run, written out in the octets before it and its length |
| `Base64Transforms.OneChunkFits` | src/base64.c:879-883 | the condition on a single chunk in lines, written out |
| `Base64Transforms.TightAllotment` | src/base64.c:879-883 | 1024 octets in lines of 28 characters need exactly their allotment |
| `Base64Transforms.SmallChunksFit` | src/base64.c:852-957 | every run without line breaks, or with chunks of at most 27 lines' worth, meets all its allotments |
| `Base64Transforms.DecodeAllotmentSuffices` | src/base64.c:884-886 | every decode chunk leaves a position of its allotment free, whatever the state |
| `Base64Transforms.FinalFits` | src/base64.c:919-921 | completing the last group takes at most 6 of the 16 positions |
| `Base64Transforms.Transform.Execute` | src/base64.c:852-957 | one execution appends what the codec writes for the input buffer, empties it, and finishes on the last call; its exact conditions |
| `Base64Transforms.Transform.EncodeAll` | src/base64.c:852-957 | a run over any chunks succeeds exactly when its chunk lengths meet their allotments, and appends the wrapped base64 of the concatenation |
| `Base64Transforms.Transform.DecodeAll` | src/base64.c:852-957 | a run over any chunks succeeds exactly when the concatenation is well formed, and appends its octets |
| `BnLaws.ValueConcat` | src/bn.c:478-516 | the value of joined octets in positional notation |
| `BnLaws.StrippedUnique` | src/bn.c:656-693 | octets without leading zeros are determined by their value |
| `BnLaws.ValueOfStrip` | src/bn.c:554-568 | dropping leading zero octets keeps the value |
| `BnLaws.ValueOfComplement` | src/bn.c:282-289 | flipping all octets gives the largest value of that length less the value |
| `BnSpec.ComplementIsXor` | src/bn.c:282-289 | flipping all bits of an octet is subtracting it from 255 |
| `BnLaws.LoweredExact` | src/bn.c:616-628 | adding a negative delta subtracts it exactly when no remainder is lost |
| `BnLaws.LoweredNeverBelow` | src/bn.c:616-628 | the result of adding a negative delta is never below the difference |
| `BnLaws.SubtractionExact` | src/bn.c:616-628 | adding a negative delta is exact exactly when the last octets cover those of the amount; for one octet, when the last octet is no smaller |
| `BnLaws.NoBorrowCovers` | src/bn.c:616-628 | the loop loses no remainder exactly when the number ends in the amount's octets, the first of them possibly larger |
| `BnLaws.ValueOfOctets` | src/bn.c:616-628 | the octets of an amount have its value and no leading zero |
| `BnLaws.LostBorrow` | src/bn.c:616-628 | 256 less 1 stays 256 |
| `BnLaws.LoweredByOneOctet` | src/bn.c:616-628 | subtracting at most 255 changes the last octet alone, which stops at zero |
| `BnLaws.NegatedSigned` | src/bn.c:282-295 | complement and increment negate a positive number whose sign bit is clear |
| `BnLaws.MinimalIsShortest` | src/bn.c:270-280 | no shorter octets read as the same non-negative number |
| `BigNumbers.MulFitsInt` | src/bn.c:499-501 | no intermediate value of the loop overflows a 32-bit int exactly for multipliers up to 2^23 |
| `BigNumbers.AddFitsInt` | src/bn.c:597-603 | no intermediate value overflows exactly for a delta of at most the largest int less 255 |
| `BigNumbers.DivFitsInt` | src/bn.c:545-551 | no intermediate value overflows exactly for dividers up to 2^23 |
| `BigNumbers.AddInPlace` | src/bn.c:597-603 | the octets and the carry together hold the sum, the carry stays at most delta |
| `BigNumbers.DivInPlace` | src/bn.c:545-552 | the octets hold the quotient and the carry the remainder, below the divider |
| `BigNumbers.Mul` | src/bn.c:478-516 | the value is multiplied exactly; refused exactly for a multiplier that is not positive; no leading zero appears |
| `BigNumbers.MulInPlace` | src/bn.c:493-502 | the octets and the carry together hold the product, the carry stays below the multiplier |
| `BigNumbers.PrependCarry` | src/bn.c:504-513 | what is left of a carry is put in front octet by octet with its full weight |
| `BigNumbers.Add` | src/bn.c:582-630 | a non-negative delta is added exactly; a negative one lowers the octets without borrows |
| `BigNumbers.Div` | src/bn.c:528-571 | value = divider * quotient + remainder, remainder below the divider, no leading zero; divider 1 leaves the remainder unset |
| `BigNumberText.SkipSign` | src/bn.c:217-242 | stops behind leading blanks and an optional sign, and reports the sign |
| `BigNumberText.ReadDigits` | src/bn.c:244-268 | accepts exactly blanks and digits of the base, and leaves the positional value of the digits |
| `BigNumberText.ClearSign` | src/bn.c:270-280 | the sign bit is clear, the value kept, and the octets minimal |
| `BigNumberText.Negate` | src/bn.c:282-295 | a positive number is negated in two's complement; zero becomes a power of 256 |
| `BigNumberText.ApplySign` | src/bn.c:270-295 | the magnitude read gets its sign exactly unless a zero is negated, which becomes a power of 256; a positive one is minimal |
| `BigNumberText.FromString` | src/bn.c:180-298 | accepted exactly for a base 2..16 and a numeral; the signed value is the numeral's exactly when it is not a negated zero; non-negative results are minimal |
| `BigNumberText.NegatedZero` | src/bn.c:217-295 | a sign alone and a sign before a zero are numerals of a negated zero in every base |
| `BnTextLaws.DigitCharacters` | src/bn.c:55-60 | the printed digits by name |
| `BnTextLaws.CharacterDigits` | src/bn.c:35-53 | the digits read, by name and in both cases, and that no other character is one |
| `BnTextLaws.SignsAndBlanks` | src/bn.c:224-236 | the two signs and the six blanks |
| `BnTextLaws.Forms` | src/bn.c:217-242 | blanks, then a minus or plus sign or none, then the body |
| `BnTextLaws.ReadOn` | src/bn.c:244-268 | reading a text in two parts continues from the value of the first |
| `BnTextLaws.ReadOneCharacter` | src/bn.c:244-268 | a blank is passed over; a digit multiplies by the base and adds itself |
| `BnTextLaws.CaseIgnored` | src/bn.c:35-53 | the case of letters changes neither whether a text is a numeral nor its value |
| `BnTextLaws.NumeralCharacters` | src/bn.c:378-389 | a numeral consists of '0' to '9' and 'A' to 'F' below the base |
| `BnTextLaws.ReadPrinted` | src/bn.c:310-411 | the numeral of every integer reads back as that integer |
| `BnTextLaws.PrintRead` | src/bn.c:180-411 | the numeral of a read text is its canonical form: upper case, no blanks, no leading zeros |
| `BnTextLaws.NumeralOfOctets` | src/bn.c:364-369 | n octets have at most 8n digits in every base from 2 |
| `BigNumberText.Magnitude` | src/bn.c:344-362 | the octets hold the magnitude that is printed, and the sign flag its sign |
| `BigNumberText.WriteDigits` | src/bn.c:378-389 | the loop ends because the number is used up, two positions before the cap, with the reversed numeral written |
| `BigNumberText.TrimZeros` | src/bn.c:391-394 | removes only zero characters from the end and keeps one character |
| `BigNumberText.NothingToTrim` | src/bn.c:391-394 | the trimming loop removes nothing from a numeral |
| `BigNumberText.Digits` | src/bn.c:364-394 | the reversed numeral in an array with room for a sign and a NUL |
| `BigNumberText.ReverseText` | src/bn.c:402-407 | the swap loop reverses the first characters and leaves the others |
| `BigNumberText.ToString` | src/bn.c:310-411 | the C string is the signed numeral of the printed number without leading zeros, a '-' and named digits; nothing only for a base outside 2..16; the number is unchanged |
| `BigNumberRoundTrip.PrintThenRead` | src/bn.c:310-411 | a printed number reads back as itself exactly when it is not negative or its last octet is not zero |
| `BigNumberRoundTrip.PrintsWrong` | src/bn.c:344-362 | the octets of -256 are printed as -255 |
| `BigNumberRoundTrip.ReadThenPrint` | src/bn.c:180-411 | a read text prints in canonical form; with a minus sign exactly when its magnitude is no multiple of 256, and otherwise as the magnitude less one |
| `BigNumberRoundTrip.PrintAndRead` | src/bn.c:180-411 | ToString and FromString restore the signed value exactly when printing is right |
| `BigNumberRoundTrip.ReadAndPrint` | src/bn.c:180-411 | FromString and ToString give the canonical text, with the exact conditions for negative texts and the text printed where they fail; the empty text gives the empty text |
| `BigNumberText.FirstDifference` | src/bn.c:692-692 | between numbers of one length the first differing octet decides the order |
| `BigNumberText.ByLength` | src/bn.c:666-686 | equality and order by the count of significant octets |
| `BigNumberText.Compare` | src/bn.c:656-693 | 0 exactly for equal values; the order is right exactly when the number does not have more significant octets than non-zero data |
| `BigNumberText.MisorderedExample` | src/bn.c:684-685 | 256 compared with 1 is such a case |
| `BigNumberText.WithoutTrailingZeros` | src/bn.c:717-719 | the significant octets of little-endian data are the stripped big-endian ones reversed |
| `BigNumberText.CompareReverse` | src/bn.c:706-750 | the same against little-endian data |
| `KeyXml.ContentRead` | src/buffer.c:560-605 | succeeds exactly on well-formed content, except empty content in a buffer never allocated, and stores its octets |
| `KeyXml.AddComponent` | src/buffer.c:617-634 | adds one element with the wrapped base64 of a buffer between optional line feeds |
| `KeyXml.ElementsWithComponent` | src/xmltree.c:278-327 | adding a child adds exactly one element, at the end |
| `KeyXml.ContentText` | src/buffer.c:617-634 | the text written for a buffer is its wrapped base64; refused exactly for a negative line length or a buffer never allocated |
| `KeyXml.AddChild` | src/xmltree.c:278-327 | an element and a line feed behind it join the children, after a line feed if there were none |
| `KeyXml.NextElement` | src/xmltree.c:517-523 | the first element from a position on, with the elements behind it |
| `KeyXml.ComponentRoundTrip` | src/buffer.c:560-634 | content written for a buffer decodes to the buffer's octets for every line length and line break setting |
| `KeyXml.ReadRequired` | src/keysdata.c:1644-1653 | reads the next element exactly when it has the required name and well-formed content |
| `KeyXml.ReadOptional` | src/keysdata.c:1668-1684 | reads the next element if it has the name and empties the buffer otherwise |
| `KeyXml.RsaXmlRead` | src/keysdata.c:1634-1693 | accepts exactly Modulus, Exponent, optional PrivateExponent with well-formed contents and nothing else; fills the buffers |
| `KeyXml.RsaReadableAtSight` | src/keysdata.c:1634-1693 | the readable children by name and namespace, with well-formed contents |
| `KeyXml.RsaXmlWrite` | src/keysdata.c:1695-1767 | appends exactly the elements of the key, the private one only if asked for and present |
| `KeyXml.RsaRoundTrip` | src/keysdata.c:1634-1767 | the written elements are readable and decode to the components |
| `KeyXml.RsaWriteAndRead` | src/keysdata.c:1634-1767 | writing and reading an RSA value always succeeds and copies it, the private part exactly if asked for |
| `KeyXml.SkipOptional` | src/keysdata.c:1275-1288 | passes over one element of the given name if it is next |
| `KeyXml.DsaXmlRead` | src/keysdata.c:1199-1297 | accepts exactly P, Q, G, optional X, Y and at most J, Seed, PgenCounter in this order; fills the buffers |
| `KeyXml.DsaReadableAtSight` | src/keysdata.c:1199-1297 | the readable children by name and namespace: P, Q, G, at most one X, Y, then one of the eight choices of J, Seed, PgenCounter |
| `KeyXml.DsaTail` | src/keysdata.c:1275-1288 | a value that ends in Y stays readable with exactly these eight tails |
| `KeyXml.DsaXmlWrite` | src/keysdata.c:1299-1411 | appends exactly the elements of the key, X only if asked for and present |
| `KeyXml.DsaRoundTrip` | src/keysdata.c:1199-1411 | the written elements are readable and decode to the components |
| `KeyXml.DsaWriteAndRead` | src/keysdata.c:1199-1411 | writing and reading a DSA value always succeeds and copies it, X exactly if asked for |
| `Keys.LookupPut` | src/keys.c:849-884 | after an adoption its id finds the new item and every other id what it found before |
| `Keys.PutKeepsUnique` | src/keys.c:849-884 | an adoption never makes an id occur twice |
| `Keys.PutRepresents` | src/keysmngr.c:169-186 | an adoption keeps the list equal to the map of the items adopted last |
| `Keys.RepresentsItself` | src/keys.c:773-795 | a list with unique ids stands for its own items |
| `Keys.Search` | src/keysmngr.c:199-216 | the loop finds the first item with the id, or nothing when there is none |
| `Keys.Adopt` | src/keysmngr.c:169-186 | the loop replaces the first item with the id or appends |
| `Keys.MatchKeyValue` | src/keys.c:426-443 | 1 exactly when klass and size meet the requirements, else 0; without a klass exactly when none is asked for |
| `Flags.ShareIsCommonFlag` | src/keys.c:406-411 | the mask test is having one of 32 flags in common |
| `Flags.ShareOneFlag` | src/keys.c:406-411 | a mask of one flag passes exactly with masks that have it |
| `Flags.ShareUnion` | src/keys.c:406-411 | the test distributes over joining masks and is symmetric |
| `Keys.Match` | src/keys.c:650-659 | 1 exactly when name, klass and size meet the requirements and type and usage have a flag in common with what is asked, flag by flag; negative exactly for a key without a value |
| `Keys.Key.GetData` | src/keys.c:773-795 | the value for the value klass, else the data of the klass adopted last |
| `Keys.Key.AdoptData` | src/keys.c:849-884 | the value is replaced, or the item joins the history the list stands for |
| `Keys.Key.EnsureData` | src/keys.c:806-837 | existing data is returned, else created data, which is then what the klass finds; the value and every other klass are unaffected |
| `Keys.Key.RunData` | src/keys.c:773-884 | any run of adoptions and look-ups-or-creations leaves what the run on value and history leaves, each id at most once |
| `Keys.DataOpIsMapUpdate` | src/keys.c:806-884 | one operation changes what its own id finds and nothing else |
| `Keys.RunFinds` | src/keys.c:773-884 | after a run every id finds what the last operation on it left, and an id no operation named what it found before |
| `Keys.Key.Copy` | src/keys.c:569-606 | succeeds exactly when all data can be copied; name, usage and validity dates are copied; every klass then finds the copy of what the source finds |
| `Keys.CopiedList` | src/keys.c:569-606 | copying a list item by item copies what every id finds |
| `Keys.CopyStillMeets` | src/keys.c:401-443 | a copy meets exactly the requirements its source meets |
| `Keys.FaithfulCopies` | src/keys.c:569-606 | what is asked of a copy function is met by copying unchanged and by refusing, not by changing the size |
| `Keys.SimpleKeysStore.AdoptKey` | src/keysmngr.c:355-374 | the key joins the end of the store |
| `Keys.SimpleKeysStore.FindKey` | src/keysmngr.c:687-708 | a fresh copy of the first matching key, itself valid and matching; nothing only when no key matches or the first match cannot be copied |
| `Keys.KeysMngr.AdoptDataStore` | src/keysmngr.c:169-186 | the store joins the history the list stands for |
| `Keys.KeysMngr.GetDataStore` | src/keysmngr.c:199-216 | the store of the klass adopted last |

## Left out

- Allocation failure, null arguments and the checks that sizes fit the C types: error paths around the modelled logic.
- What C does past the limits of its integers: the limits are stated, behaviour beyond them is undefined or refused; so is negating the smallest int as a delta.
- `xmlSecBase64SetDefaultLineSize` and the other process-wide defaults: plain global variables.
- Reading and writing buffers from files and I/O contexts: input and output only.
- Big numbers in XML nodes (`xmlSecBnGetNodeValue` and its counterpart): the base64 content path is modelled in `KeyXml`.
- X509 data, other key data klasses and klass registration: dispatch through function tables.
- The spelling of element names and namespaces: they are distinct symbols here.
- Real XML trees: nodes are lists of children with character content; comments, entities and nested elements are not distinguished.
- Key data as objects: key data are values here, so what a klass's copy function shares with the original is not captured.
- Transform contexts, key info processing, canonicalisation, encryption and signatures: their substance lies outside the modelled files.
- The command-line tools and examples: calls into the library.
