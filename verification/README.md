# Cryptogram: a model of its codecs, and proofs about them

Cryptogram hides encrypted text in images that survive lossy compression. A message is enciphered,
protected by a Reed-Solomon code, written as base64, and drawn as gray squares; reading an image
goes the same way back. This project models the three layers in which that can go wrong and proves
that each one undoes itself.

**Reed-Solomon** (`GF256Tables`, `GF256`, `Polynomials`, `PolynomialRing`, `PolynomialDivision`,
`PolynomialLoops`, `KeyEquation`, `BerlekampMassey`, `RSCode`, `Decoder`, `ErrorCorrection`,
`ECCoder`). The field of 256 elements is defined by its log and exponent tables, as in the program;
it is shown to be the field of section 4.2 of FIPS 197. Polynomials are lists of coefficients without
leading zeros. The main result is `ErrorCorrection.DecodeCorrectsErrors`: for every `k < n < 256`,
every message of up to `k` bytes and every received word that differs from its codeword in at most
`(n - k) / 2` bytes, decoding returns the message. The route is: the error locator and the error
evaluator satisfy the key equation; Berlekamp's loop keeps two key equations, four degree bounds and
an exact determinant at every step; cross-multiplying the two pairs, every error location is a root of
the computed locator, and the degree bounds then leave no room for anything else; so the computed
pair *is* the locator and the evaluator. The root search and Forney's formula are proved against them.

**Images** (`Grid`, `Base64Symbols`, `ImageCoder`, `ImageDimensions`, `Codec`, `CodecPixels`, `CodecNoise`,
`Bacchant`, `BacchantImage`, `BacchantPixels`, `BacchantBlocks`, `BacchantWriter`, `SiteBlocks`, `SiteFilling`,
`SiteEncoder`). Both codecs put a character in a cell of 4 by 2 pixels,
keep the 2 by 4 cells of the upper left corner for a header, and fill the remaining cells in two
regions. The layout is shown to invert the order in which a decoder scans, the computed dimensions to
hold the data, and decoding to return the payload as long as the mean of each square stays in the band
of its gray level. Averages are exact rationals.

**CCM** (`BitArrays`, `Ccm`, `CcmStandard`, `SjclCcm`). Strings of bits are packed into words, the last of which may
be partial; each operation on these arrays is proved against the same operation on plain strings of
bits. CCM, sections 2.2 to 2.5 of RFC 3610, is written on plain strings of bits for any block function;
decryption is shown to accept exactly what encryption produces, and the program's routines on words to
compute these two functions. What the two functions are is stated by the values of the fields of the standard's
blocks and the chain over them, without the functions themselves.

Byte strings of the Reed-Solomon layer are sequences of field elements, one for each character code.
Methods are the program's loops; the functions beside them are what the methods compute, and the lemmas
say what that is good for.

## Where the code and its description differ

- The header writer of `core-rust/src/bacchant.rs` advances by one block for every character, although a
  character takes two. Neighbours overwrite each other, and its own reader expects two characters a row:
  `BacchantWriter.EncodeRust` shows that every image it writes is rejected with "invalid header", whatever
  the payload and the size, while its payload area is right. The site's encoder lays the header out as the
  reader expects; the round trip is stated for that one (`SiteEncoder.Encode`).
- Not every bacchant payload is read back. In an image at least 40 pixels wide, exactly the base64 payloads of
  at least 1 and fewer than 10^8 characters are (`BacchantImage.DecodeReturnsPayload`): the scan emits a
  character before it looks at the length, so an empty payload comes back as one character, and the reader
  takes eight digits of length where the writer puts nine or more. In a narrower image the length does not fit
  beside the header, and only a single payload comes back, "1" at a width of 36 pixels and "0" below that
  (none at 8 pixels).
- The site chooses the size itself. With ratio 1, its default, the image is at least 40 pixels wide from 147
  characters on; shorter payloads are lost, but for "0" (`SiteEncoder.SquareComesBack`).
- The random levels that the site puts behind the text start four squares too early when the text is all beside
  the header. They fall on the last four squares of the text, and, when it ends above the header's last row, on
  the squares of the header in the rows below. Such a payload is read back only if the random levels happen to
  agree with the squares of the header that they hit, and, unless it has one character, exactly if they agree with
  those of the text as well and the width gives back such payloads (`SiteFilling.FillingDecides`,
  `SiteEncoder.Encode`). One of two constant fillings always loses it (`SiteFilling.SomeFillingFails`). So a
  payload comes back for every filling if and only if the text reaches below the header and the width gives it
  back. In an image 8 pixels high no text reaches below the header
  (`SiteEncoder.EightPixelsHigh`).
- `rs.py` promises the message back. Leading NULs are stripped, or the message comes back padded to `k`
  bytes; `ErrorCorrection.DecodeReturnsMessage` says exactly when it comes back as it was.
- The chunking of `ECCoder.py` loses NULs and `}` at the edges of a chunk; `ECCoder.RoundTrip` says exactly
  for which messages decoding undoes encoding, and `ECCoder.EdgeIsLost` gives two that come back empty.
- CCM decryption does not check that there is a tag at all. Among the ciphertexts long enough for one it accepts
  exactly the encryptions (`Ccm.DecryptInvertsEncrypt`); with a block function that is constant, it accepts the
  empty ciphertext as well (`Ccm.NothingDecrypts`).
- `Polynomial.degree` is 0 for the zero polynomial. Degree bounds are therefore stated as "no coefficient
  above d", with -1 for the zero polynomial.

## Model

| member | source | states |
|---|---|---|
| GF256Tables.ExpTableStep | desktop/ff.py:14-31 | each entry of the exponent table is 3 times the one before, modulo the field polynomial |
| GF256Tables.LogOfExpTable | desktop/ff.py:34-51 | the log table undoes the exponent table |
| GF256Tables.ExpOfLogTable | desktop/ff.py:34-51 | the exponent table undoes the log table on nonzero elements |
| GF256Tables.DoubleXor | desktop/ff.py:120-122 | doubling modulo 0x11b is linear over xor |
| GF256.MulIsPeasant | desktop/ff.py:76-83 | the table product is the shift-and-add product for all pairs |
| GF256.SlowMultiply | desktop/ff.py:106-124 | the peasant loop returns the table product |
| GF256.MulComm | desktop/ff.py:76-84 | the table product is commutative |
| GF256.MulAssoc | desktop/ff.py:76-84 | the table product is associative |
| GF256.MulAdd | desktop/ff.py:67-84 | the table product distributes over xor |
| GF256.MulNonzero | desktop/ff.py:76-84 | a product is 0 only if a factor is |
| GF256.MulInverse | desktop/ff.py:93-95 | the table inverse is a multiplicative inverse |
| GF256.PowAdd | desktop/ff.py:86-91 | powers of a nonzero element add exponents, also negative ones |
| GF256.PowPow | desktop/ff.py:86-91 | a power of a power multiplies exponents |
| GF256.PowInverse | desktop/ff.py:86-95 | the inverse of a power is the power of the negated exponent |
| GF256.AlphaPowers | desktop/rs.py:55-56 | two powers of 3 agree if and only if their exponents agree modulo 255 |
| Polynomials.MakeAt | desktop/polynomial.py:38-50 | dropping leading zeros keeps every coefficient |
| Polynomials.AddCoeff | desktop/polynomial.py:76-85 | coefficients of a sum are sums of coefficients, for any two lengths |
| Polynomials.Ext | desktop/polynomial.py:151-152 | two normalised polynomials with the same coefficients are equal |
| PolynomialLoops.Construct | desktop/polynomial.py:38-50 | the constructor's loop keeps every coefficient and normalises |
| PolynomialLoops.MulIsConvolution | desktop/polynomial.py:92-102 | the recursive product has the coefficients of the convolution |
| PolynomialLoops.Multiply | desktop/polynomial.py:92-102 | the in-place convolution computes the product |
| PolynomialLoops.Evaluate | desktop/polynomial.py:179-193 | the loop over powers of x computes Horner's value |
| PolynomialRing.MulComm | desktop/polynomial.py:92-102 | the polynomial product is commutative |
| PolynomialRing.MulAssoc | desktop/polynomial.py:92-102 | the polynomial product is associative |
| PolynomialRing.MulAddLeft | desktop/polynomial.py:76-102 | the product distributes over the sum |
| PolynomialRing.EvalAdd | desktop/polynomial.py:76-85 | (p + q)(x) = p(x) + q(x) |
| PolynomialRing.EvalMul | desktop/polynomial.py:92-102 | (p q)(x) = p(x) q(x) |
| PolynomialRing.RootCount | desktop/polynomial.py:179-193 | a nonzero polynomial has at most as many roots as its degree |
| PolynomialDivision.RemainderShrinks | desktop/polynomial.py:135-148 | one step of long division shortens the dividend, so the recursion ends |
| PolynomialDivision.DivModIdentity | desktop/polynomial.py:109-149 | dividend = quotient * divisor + remainder, the remainder 0 or of smaller degree |
| PolynomialDivision.DivModUnique | desktop/polynomial.py:109-149 | no other quotient and remainder do |
| KeyEquation.LocatorEval | desktop/rs.py:236-238 | the locator at x is the product of the factors 1 - X_i x |
| KeyEquation.EvaluatorEval | desktop/rs.py:236-241 | at the inverse of a location the evaluator is the error value times the other factors |
| KeyEquation.EvaluatorNonzero | desktop/rs.py:236-241 | locator and evaluator have no common root among the inverse locations |
| KeyEquation.KeyEquationOf | desktop/rs.py:262-263 | (1 + S) * locator = evaluator modulo z^(d+1), with S the power sums of the errors |
| KeyEquation.KeyEquationHolds | desktop/rs.py:262-263 | the same for the computed syndromes |
| KeyEquation.NoSilentErrors | desktop/rs.py:51-58 | between 1 and d errors leave a syndrome different from 0 |
| BerlekampMassey.Run | desktop/rs.py:216-313 | the loop over six lists ends with the sigma and omega of the iterated step |
| BerlekampMassey.StepIs | desktop/rs.py:268-310 | what rule A and rule B make of each of the six components |
| BerlekampMassey.StepKeeps | desktop/rs.py:261-310 | a step keeps both key equations, the determinant omega*tao - sigma*gamma = z^l, sigma(0) = 1 and the degree bounds, by either rule |
| BerlekampMassey.IterateKeeps | desktop/rs.py:246-313 | all of this holds after every number of steps |
| BerlekampMassey.CrossMultiplied | desktop/rs.py:246-313 | with at most d/2 errors, sigma * evaluator = omega * locator, and D is at most the number of errors |
| BerlekampMassey.CrossFactors | desktop/rs.py:246-313 | sigma and omega divide z^d times locator and evaluator, with the same factor |
| BerlekampMassey.SharedRoot | desktop/rs.py:236-238 | the inverse of every error location is a root of sigma |
| BerlekampMassey.DCountsErrors | desktop/rs.py:251-310 | D ends as the number of errors |
| BerlekampMassey.IterateFindsErrors | desktop/rs.py:216-313 | with at most d/2 errors, sigma is the error locator and omega the error evaluator |
| RSCode.Create | desktop/rs.py:31-58 | the coder for exactly the legal n and k, with the product of the n - k linear factors, and each error for exactly its cases |
| RSCode.GeneratorDegree | desktop/rs.py:51-58 | the generator is monic of degree n - k |
| RSCode.GeneratorRoot | desktop/rs.py:51-58 | alpha^1 to alpha^(n-k) are roots of the generator |
| RSCode.ModGenerator | desktop/rs.py:112-129 | the generator divides a polynomial if and only if these are its roots |
| RSCode.VerifyIffNoSyndrome | desktop/rs.py:112-129 | verify holds if and only if every syndrome is 0 |
| RSCode.Systematic | desktop/rs.py:87-110 | the first k bytes of a codeword are the message behind NULs |
| RSCode.EncodeShape | desktop/rs.py:87-110 | encode succeeds exactly for messages of at most k bytes, with n bytes, the message first, a multiple of the generator that verify accepts |
| Decoder.SyndromesCoeff | desktop/rs.py:204-214 | coefficient l of the syndrome polynomial is the word's value at alpha^l, coefficient 0 is 0 |
| Decoder.ComputeSyndromes | desktop/rs.py:197-214 | the loop builds that polynomial |
| Decoder.RootPositionsComplete | desktop/rs.py:315-340 | a position is found if and only if the inverse of its power of alpha is a root |
| Decoder.RootPositionsRange | desktop/rs.py:315-340 | positions come in falling order, each once |
| Decoder.ChienSearch | desktop/rs.py:315-340 | the search returns the positions and their powers of alpha |
| Decoder.DifferenceProductNonzero | desktop/rs.py:355-365 | the product that Forney's loop inverts is never 0 for distinct locations |
| Decoder.Forney | desktop/rs.py:342-368 | the loop computes the magnitudes for any number of locations, 0 in place of missing ones |
| Decoder.Decode | desktop/rs.py:131-194 | decode chains verification, syndromes, Berlekamp's loop, root search, Forney's formula and correction, and stripping |
| ErrorCorrection.ErrorsBetween | desktop/rs.py:223-234 | two words differ by a list of as many errors as bytes that differ |
| ErrorCorrection.PowerSumIsEval | desktop/rs.py:204-208 | a syndrome of an error polynomial is a power sum of its errors |
| ErrorCorrection.SyndromesHold | desktop/rs.py:197-214 | the syndromes of a received word are those of its errors |
| ErrorCorrection.SilentWords | desktop/rs.py:51-58 | words whose difference has no syndrome differ in more than n - k places |
| ErrorCorrection.MinimumDistance | desktop/rs.py:72-110 | codewords of different messages differ in at least n - k + 1 bytes |
| ErrorCorrection.ChienFindsErrors | desktop/rs.py:315-340 | on the locator, the root search returns the error positions, each once |
| ErrorCorrection.ProductIsCofactor | desktop/rs.py:355-364 | the product of differences is a power of the location times the other locator factors |
| ErrorCorrection.MagnitudeIsValue | desktop/rs.py:349-367 | Forney's formula gives the error value, also with fewer errors than s |
| ErrorCorrection.CorrectionIsError | desktop/rs.py:155-180 | within the radius the subtracted polynomial is the error |
| ErrorCorrection.DecodeCodeword | desktop/rs.py:145-150 | a codeword decodes to its message, stripped or padded |
| ErrorCorrection.DecodeCorrectsErrors | desktop/rs.py:131-194 | a word with at most (n-k)/2 wrong bytes decodes to the message, stripped or padded, for every n, k, message and error |
| ErrorCorrection.DecodeReturnsMessage | desktop/rs.py:131-140 | it is the message itself if and only if the message does not start with NUL, or has k bytes when not stripping |
| ECCoder.Chunk | desktop/ECCoder.py:40-55 | cutting and padding in place gives the padded chunks |
| ECCoder.SingleCoder | desktop/ECCoder.py:87-108 | the loop concatenates the coded, or decoded and stripped, blocks |
| ECCoder.EncodedBlock | desktop/ECCoder.py:34-55 | codeword i of the encoded message encodes bytes k i to k (i + 1), with '}' in place of missing ones |
| ECCoder.DecodeGivesSurvivors | desktop/ECCoder.py:87-108 | with at most (n-k)/2 errors in every block, decoding gives what stripping leaves of each chunk |
| ECCoder.RoundTrip | desktop/ECCoder.py:34-55 | decoding undoes encoding if and only if no chunk starts with NUL or ends with the padding character |
| ECCoder.EdgeIsLost | desktop/ECCoder.py:34-55 | a padding character or a NUL alone decodes to nothing, without any error |
| ECCoder.PlainRoundTrip | desktop/ECCoder.py:87-108 | decoding undoes encoding for messages without NUL and padding, with errors in every block |
| Grid.CellOfIndex | desktop/Codec.py:147-156 | the cell that an encoder gives to the k-th character is the k-th cell that a decoder meets |
| Grid.IndexOfCell | desktop/Codec.py:147-156 | the cells for characters are outside the header, inside the width, and all different |
| Grid.CellOfNext | desktop/Codec.py:147-156 | the cells follow each other along the rows, and around the header |
| Grid.CellInside | desktop/Codec.py:147-156 | a character's cell is inside the image if and only if the grid has room for it |
| Grid.BeforeTheEnd | desktop/Codec.py:213-217 | a scan meets as many cells as the grid has outside the header |
| ImageDimensions.NewImageDimensions.GetDimsFixedWidth | desktop/NewImageDimensions.py:21-29 | the width is the whole symbols that fit, the height the fewest rows that hold the data |
| ImageDimensions.NewImageDimensions.CalculateSymbolDims | desktop/NewImageDimensions.py:32-63 | the grid holds the data, and the height ends within a row of width / ratio when rows are added |
| ImageDimensions.NewImageDimensions.CalculateNumSymbols | desktop/NewImageDimensions.py:65-76 | in both modes the exact number of rows and columns: the fewest rows that hold the data in a fixed width, and otherwise the fewest that the root allows and that come within a row of width / ratio; the image is as large as the grid |
| ImageCoder.Bsearch | desktop/util.py:5-37 | the search returns the nearest entry of an increasing list, the larger one on a tie |
| ImageCoder.NearestSymbolIsNearest | desktop/ImageCoder.py:19-44 | thresholds every 28 are what searching the nine levels amounts to |
| ImageCoder.SignalToSymbol | desktop/ImageCoder.py:36-44 | the symbol of an average by the search |
| ImageCoder.NearestSymbolBand | desktop/ImageCoder.py:19-44 | a symbol is recovered exactly from averages in [level - 14, level + 14), unbounded at either end |
| ImageCoder.SiteAgrees | site-encoder/cryptagram-compiled.js:491 | the site's rule by division agrees for every average, black being -1 there and 8 here |
| Base64Symbols.CharOfIndex | desktop/ImageCoder.py:46-61 | a base64 character comes back from its place in the alphabet |
| Base64Symbols.AlphabetOrder | desktop/ImageCoder.py:46-54 | the places of the 64 characters are those in which the program lists them |
| Base64Symbols.AlphabetPlace | desktop/ImageCoder.py:51-54 | a character has place i exactly if it is character i of the list |
| Codec.PlaceOfChar | desktop/Codec.py:112-156 | exactly one character belongs to each written cell |
| Codec.PaintSquare | desktop/Codec.py:159-162 | the four pixels of a square change, and no other |
| Codec.PaintCell | desktop/Codec.py:133-168 | writing one character more turns the picture of a prefix into that of the next |
| Codec.Paint | desktop/Codec.py:107-173 | the loops draw exactly the picture of the data, or stop at the first character that is outside the alphabet or falls outside the image |
| Codec.ReadHeader | desktop/Codec.py:195-209 | the loop over the header reads its eight cells |
| Codec.Codec.Encode | desktop/Codec.py:66-175 | the result is the picture of the data in the grid of exactly the rows and columns that its length, the ratio or the fixed width ask for, with the counters; on failure the result is kept and the counter tells the character that failed |
| Codec.Codec.Decode | desktop/Codec.py:178-232 | the result is the characters of all cells outside the header in scan order, and the header's are logged; the counters |
| CodecPixels.CellReadIff | desktop/Codec.py:219-230 | a cell is read as a character exactly if the twelve numbers of each of its squares add up to the band of the character's octal digit |
| CodecPixels.CellEmptyIff | desktop/ImageCoder.py:56-59 | it is read as nothing exactly if the numbers of one of its squares add up to less than 336 |
| CodecPixels.HeaderOrder | desktop/Codec.py:198-209 | the header's eight cells are read two to a row |
| CodecPixels.PictureAt | desktop/Codec.py:112-168 | the colour of every pixel of the cell of every character, by the encoder's arithmetic and the character's place in the alphabet |
| CodecPixels.PixelOrigin | desktop/Codec.py:80-168 | every other pixel is black |
| CodecNoise.DecodeRecovers | desktop/Codec.py:213-232 | the payload comes back if the twelve numbers of every written square add up to its band, and those of a square of every unwritten cell to less than 336 |
| CodecNoise.DecodeUndoesEncode | desktop/Codec.py:97-173 | the payload comes back if the three numbers of every pixel of a drawn image are off by at least -14 and below +14 levels on average |
| CodecNoise.HeaderComesBack | desktop/Codec.py:107-130 | the header comes back under the same noise |
| CodecNoise.PictureIsNear | desktop/Codec.py:97-173 | the drawn image itself is such an image |
| CodecNoise.RoundTrip | desktop/Codec.py:66-232 | encoding data with a full header, and decoding what arrives of the image under such noise, gives header and payload back |
| Bacchant.GetBin | core-rust/src/bacchant.rs:7-25 | the loop over a block computes its level from its average luminance |
| Bacchant.BinBand | core-rust/src/bacchant.rs:21-24 | the exact band of totals that give a level |
| Bacchant.NearIsRead | core-rust/src/bacchant.rs:21-24 | an average within 17 of a level is read as that level |
| BacchantPixels.BinIff | core-rust/src/bacchant.rs:7-25 | the symbol that a block is read as, by the sums of its red, green and blue bytes |
| BacchantPixels.CharAtIff | core-rust/src/bacchant.rs:56-59 | two blocks are read as a character exactly if they are read as its two octal digits |
| BacchantPixels.LevelIs | core-rust/src/bacchant.rs:92 | the levels are the sevenths of 255, rounded down |
| BacchantPixels.HeaderOrder | core-rust/src/bacchant.rs:27-42 | the header is right exactly if eight cells, two to a row, are read as the letters of the name |
| Bacchant.ReadHeader | core-rust/src/bacchant.rs:27-38 | the header loop reads the eight characters of the corner |
| Bacchant.Decode | core-rust/src/bacchant.rs:6-83 | the scan with its early ends is the recursive one, for all images |
| BacchantImage.ScanReads | core-rust/src/bacchant.rs:44-83 | from any place in the scan, the rest of a written text is read and the scan ends in time, in images of any width |
| BacchantImage.ScanDone | core-rust/src/bacchant.rs:44-83 | a scan of any image that ends with "ok" has read exactly the characters shown behind the length, as many as it says and at least one |
| BacchantImage.DecodeIff | core-rust/src/bacchant.rs:6-83 | any image of whole cells, at least 12 pixels wide, decodes to a payload if and only if its header is right and the payload is shown behind its length |
| BacchantPixels.DecodeIs | core-rust/src/bacchant.rs:6-83 | the outcome for every image of whole cells, at least 12 pixels wide: invalid header, invalid length, "ok" or "incomplete", and what is returned with it |
| BacchantPixels.ParsesIff | core-rust/src/bacchant.rs:64-67 | a length is one digit or more, behind at most one plus sign |
| BacchantPixels.DecimalParses | core-rust/src/bacchant.rs:65 | every number is parsed from its decimal digits |
| BacchantPixels.SignedDecimalParses | core-rust/src/bacchant.rs:65 | with a plus sign as well |
| BacchantImage.LengthFieldParses | core-rust/src/bacchant.rs:61-66 | any number of leading characters of the length field parses: to the length if all eight are read and it is below 10^8, to at most a tenth otherwise |
| BacchantImage.CleanedIdentity | core-rust/src/bacchant.rs:103-106 | a text survives the alphabet if and only if it is base64 |
| BacchantImage.SlotsOfCell | core-rust/src/bacchant.rs:128-144 | the two squares of a character lie in the cell that the scan gives to it |
| BacchantImage.HeaderReads | core-rust/src/bacchant.rs:27-38 | a header near the expected squares reads as the name |
| BacchantImage.DecodeGives | core-rust/src/bacchant.rs:6-83 | what is read, for every payload and every width with room for a character of the length |
| BacchantImage.DecodeRecovers | core-rust/src/bacchant.rs:6-83 | with averages within 17 of their levels, a payload of fewer than 10^8 characters comes back, foreign characters as 'A' |
| BacchantImage.DecodeEmptyPayload | core-rust/src/bacchant.rs:64-77 | an empty payload is read as the one character behind the length |
| BacchantImage.DecodeNarrow | core-rust/src/bacchant.rs:61-77 | with fewer than eight characters of length in the top row, only "0", or "1" at seven, comes back |
| BacchantImage.DecodeReturnsPayload | core-rust/src/bacchant.rs:6-83 | for every payload and every width, decoding returns the payload with "ok" if and only if the width is at least 40 and the payload is base64 of 1 to 10^8 - 1 characters, or it is the one payload of a narrower image |
| BacchantBlocks.SetBlock | core-rust/src/bacchant.rs:91-101 | exactly the colours of four pixels change |
| BacchantWriter.WriteHeader | core-rust/src/bacchant.rs:108-116 | the exact buffer after the sixteen overlapping squares, for every width, and which of them survive |
| BacchantWriter.WriteText | core-rust/src/bacchant.rs:119-149 | the exact buffer after the text; every symbol stands in its square, and the header's corner is untouched |
| BacchantWriter.SlotNext | core-rust/src/bacchant.rs:128-144 | the slots of the symbols follow each other along the rows, and around the header, for every width |
| BacchantWriter.EncodeRust | core-rust/src/bacchant.rs:85-152 | the exact image for every payload and size: the surviving squares of the header, those of the length in bytes and the payload, gray elsewhere, opaque; and that it is always rejected for its header |
| BacchantWriter.RustTextOfBase64 | core-rust/src/bacchant.rs:119-120 | for base64, the length in bytes is the length in characters |
| BacchantWriter.Utf8LengthOf | core-rust/src/bacchant.rs:119 | the length in bytes of a text is the sum over its characters of the least number of bytes that hold one |
| SiteEncoder.SiteHasRoom | site-encoder/cryptagram-compiled.js:498 | the computed image always has room for the text, if it is as large as the header |
| SiteEncoder.SiteLevelIs | site-encoder/cryptagram-compiled.js:497-499 | a character outside the alphabet, whose level is undefined and stored as 0, is drawn like the first of the alphabet |
| SiteBlocks.WriteSiteHeader | site-encoder/cryptagram-compiled.js:498-499 | all sixteen squares of the header stand where the reader looks for them |
| SiteBlocks.Fill | site-encoder/cryptagram-compiled.js:499 | the random levels fill exactly the blocks behind the given one |
| SiteBlocks.LastBlock | site-encoder/cryptagram-compiled.js:499 | the random levels start behind the text's last square if the text reaches below the header, and four squares earlier otherwise |
| SiteBlocks.Draw | site-encoder/cryptagram-compiled.js:498-499 | header and text are written, and then every block behind the first one gets its random level, on whatever it falls |
| SiteFilling.ReadHeaderAgrees | core-rust/src/bacchant.rs:27-42 | the header of a drawn image is read as the name only if the random levels agree with all squares of it that they hit |
| SiteFilling.ReadTextAgrees | core-rust/src/bacchant.rs:44-83 | a payload of other than one character is shown only if the random levels agree with all squares of the text, and the width gives it back |
| SiteFilling.FillingDecides | core-rust/src/bacchant.rs:6-83 | the exact random levels for which decoding a drawn image returns the payload, with the text beside or below the header |
| SiteFilling.SomeFillingFails | site-encoder/cryptagram-compiled.js:499 | if the text does not reach below the header, one of two constant fillings does not agree, for every payload |
| SiteEncoder.Encode | site-encoder/cryptagram-compiled.js:497-499 | in the computed image, decoding returns the payload if and only if it is one that the width gives back and the random levels agree with what they hit, which is nothing if the text reaches below the header; if it does not, a payload of one character comes back if and only if they agree with the header and it is shown |
| SiteEncoder.EightPixelsHigh | site-encoder/cryptagram-compiled.js:498-499 | in an image 8 pixels high, no text reaches below the header |
| SiteEncoder.SquareImage | site-encoder/cryptagram-compiled.js:498 | with ratio 1 every text reaches below the header, and the width is at least 40 exactly from 147 characters on |
| SiteEncoder.SquareComesBack | site-encoder/cryptagram-compiled.js:497-499 | with ratio 1, exactly the base64 payloads of 147 to 10^8 - 1 characters and "0" are given back |
| BitArrays.TagOfNumber | desktop/Cipher/sjcl.js:9 | dividing by 2^40 and rounding recovers a partial length from a signed or unsigned word |
| BitArrays.Canonical | desktop/Cipher/sjcl.js:8-10 | no string of bits has two arrays |
| BitArrays.P | desktop/Cipher/sjcl.js:10 | shifting by any number of bits appends to what is there and carried, full and partial last words alike |
| BitArrays.Concat | desktop/Cipher/sjcl.js:8 | concatenation of arrays is that of bits |
| BitArrays.Clamp | desktop/Cipher/sjcl.js:9 | clamping is the prefix; beyond the end it adds zeros inside the last word only, and a negative length counts from the back |
| BitArrays.BitSlice | desktop/Cipher/sjcl.js:8 | slicing is the part of the bits from start on, clamped if an end is given, for negative starts and ends as well |
| BitArrays.SlicedFromBack | desktop/Cipher/sjcl.js:8 | where a slice with a negative start begins |
| BitArrays.Equal | desktop/Cipher/sjcl.js:9-10 | equality of arrays is that of bits |
| Ccm.DecryptInvertsEncrypt | desktop/Cipher/sjcl.js:18-21 | a ciphertext that is long enough for a tag decrypts to a text if and only if the text encrypts to it |
| Ccm.NothingDecrypts | desktop/Cipher/sjcl.js:18-19 | a shorter one can decrypt: the empty one does, with a constant block function |
| Ccm.RoundTrip | desktop/Cipher/sjcl.js:18-21 | encryption succeeds for every IV of at least 7 bytes and every legal tag length, and decryption gives the text back |
| Ccm.FirstBlockIsStandard | desktop/Cipher/sjcl.js:20 | the first block is flags, nonce and length as in section 2.2 of RFC 3610, although the length is or-ed into a word |
| Ccm.CounterBlockIsStandard | desktop/Cipher/sjcl.js:21 | the counter blocks are flags, nonce and counter as in section 2.3 of RFC 3610, although only a word counts |
| Ccm.FieldHolds | desktop/Cipher/sjcl.js:18 | the length field chosen holds the length and every block number, for texts below 4 GiB |
| CcmStandard.EncryptIsStandard | desktop/Cipher/sjcl.js:18-21 | for texts and additional data below 4 GiB, the ciphertext is the text xor E(A_1) E(A_2) ..., and the first bits of the last X xor E(A_0), for blocks A_i, B_i and X_i told by the values of their fields and the chain of section 2.2 of RFC 3610 |
| CcmStandard.FieldIsFieldBits | desktop/Cipher/sjcl.js:18 | the length field is the least that holds the length and fills the nonce |
| CcmStandard.FlagsAre | desktop/Cipher/sjcl.js:20 | the flags are a reserved bit, one for additional data, and the two lengths in three bits each |
| CcmStandard.EncryptFails | desktop/Cipher/sjcl.js:18-20 | each error of encryption, for exactly its inputs |
| CcmStandard.DecryptFails | desktop/Cipher/sjcl.js:18-20 | each error of decryption but a wrong tag, for exactly its inputs |
| CcmStandard.NegativeBytes | desktop/Cipher/sjcl.js:19 | the number of bytes that decryption takes a negative length for |
| SjclCcm.FlagsWordIsByte | desktop/Cipher/sjcl.js:20 | the flags put together by bit operations are the standard's byte |
| SjclCcm.Chain | desktop/Cipher/sjcl.js:21 | the loop over four words at a time chains the zero-padded blocks |
| SjclCcm.Header | desktop/Cipher/sjcl.js:21 | the additional data behind its length in either form |
| SjclCcm.G | desktop/Cipher/sjcl.js:19-21 | the tag, and each error for exactly its cases |
| SjclCcm.I | desktop/Cipher/sjcl.js:21 | the data xor the key stream, and the tag xor the first key block |
| SjclCcm.FieldWidth | desktop/Cipher/sjcl.js:18 | the loop that chooses the length field |
| SjclCcm.Encrypt | desktop/Cipher/sjcl.js:18 | encryption on arrays is encryption on bits, with its errors |
| SjclCcm.Decrypt | desktop/Cipher/sjcl.js:18-19 | decryption on arrays is decryption on bits, with its errors |
| SjclCcm.RoundTrip | desktop/Cipher/sjcl.js:18-21 | an array that is encrypted and decrypted comes back as it was, word by word, for every IV of at least 7 bytes and every legal tag length |

## Left out

- Error patterns beyond the radius, and received words that are not n bytes long: `Decoder.Decode` covers
  them, but nothing is promised about what it returns.
- `h` and `gtimesh` of the coder, which neither verify nor decode uses.
- Polynomials from several keyword terms: only the dense form and single terms are modelled.
- Exceptions for operations on the zero of the field, such as its logarithm: the model never asks for them.
- The threaded path of the chunk coder, and chunks of length 0: ECCoder is modelled for k of at least 1.
- Conversion between characters and field elements; a message is its sequence of character codes.
- Floating-point rounding: averages, luminances and ratios are exact, and the square root that sets the
  width is a number whose square is given.
- A ratio that is an integer makes Python 2 truncate the divisions by it; the ratio is a real here.
- Symbol shapes other than the two squares; the offset beside the header fits no other.
- Codec.Codec.Decode: images that are not whole cells or smaller than the header, for which the program raises
  an error, are excluded by its precondition.
- Codec.Codec.Encode: counts the characters at once; the count seen by another thread meanwhile is not modelled.
- BacchantWriter.EncodeRust: images too small for the header, for which the program panics, are excluded by its
  precondition.
- SiteEncoder.Encode: images smaller than the header, in which the site writes over the edges, are excluded by its
  precondition; the opacity of pixels and the page's canvas are not modelled. Reading is that of the Rust core.
- Ccm.DecryptInvertsEncrypt: promises nothing of ciphertexts shorter than the tag, whose result is modelled
  but depends on the block function.
- The site's own aesthete codec and the dimensions that it computes: its layout is the one modelled here, and
  its rule for levels is compared in `ImageCoder.SiteAgrees`.
- Image quality, size reduction, JPEG, colour conversion and the canvas of the site.
- `extract` of the bit arrays, which CCM does not use.
- Ccm.FirstBlockIsStandard: for additional data of 4 GiB or more the program writes no length at all, and for
  texts of that size it stores the length modulo 2^32; the round trip holds for these too, the format of the
  standard does not.
- AES, SHA-256, MD5, PBKDF2, OCB2 and random numbers: the block function is a parameter, the rest is not needed.
- The user interfaces, the server, the browser extension, and all reading and writing of files.
