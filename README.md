# BMP edge filter, modelled in Dafny

The program (`main.c`) reads a 24-bit uncompressed Windows bitmap, checks its
two headers, applies a 3×3 Laplacian edge kernel to every interior pixel and
writes the result to a second file. The command line names the mapping mode
(`trunc`, `center`, `mag` or `scale`), the input and the output file.

The model follows the program step by step:

- `CArith`: the C integer types and conversions the program relies on. These are
  narrowing to `unsigned char` (mod 256), conversion to `unsigned int`
  (mod 2^32), `abs`, and `/ 8` truncating toward zero.
- `Sequences`: slicing and joining facts shared by the other modules.
- `LittleEndian`: the 16- and 32-bit field codecs.
- `Streams`: the two `FILE*` objects as classes.
  - `InputFile` holds the file's bytes and a read position. A short `fread`
    consumes the rest and fails.
  - `OutputFile` holds what has been written and the room the device has.
    Each `fwrite` item goes in whole or not at all.
- `Headers`: the 14-byte file header and the 40-byte info header.
  - They are read and written field by field, as functions with round-trip
    lemmas and as methods over the streams.
  - The magic check sits between the two headers.
- `Validation`: the seven rules.
  - Each adds its own bit to the error code.
  - The program goes on only when the code is 0 or exactly 16.
- `PixelGrid`: the pixel grid as an `array2<Pixel>`.
  - On disk a pixel is blue, green, red; the grid is row-major with no row
    padding.
  - Loading and storing are row loops. A short read or write stops at a
    well-defined pixel, which the model reports.
- `Convolution`: the kernel sums, the four mappings and the transform loop into a
  second grid.
  - The methods are proved against the specification function `Convolve`.
  - Lemmas state what `Convolve` does at the border, in the interior, on flat
    regions and on small images.
- `Filter`: the checks on the command line, and `Run`, the whole program on an
  input byte sequence and an output device.
  - `Run` is proved equal to the specification function `Expected`.
  - Lemmas about `Expected` state what a run promises.

Width and Height are signed. The loops run `max(Height, 0)` times over rows and
`max(Width, 0)` times over columns (`Filter.Extent`).

The header `fwrite` calls are not checked, so a device too small for the 54
header bytes goes unnoticed when the pixels still fit
(`Filter.HeaderWritesUnchecked`). The model keeps this behaviour.

## Model

| member | source | states |
|---|---|---|
| CArith.Narrow | main.c:255-263 | storing an `int` into an `unsigned char` keeps it modulo 256 |
| CArith.ToU32 | main.c:171-181 | converting an `int` to `unsigned int` keeps it modulo 2^32, which is how the size rules compare an `int` with an unsigned field |
| CArith.Abs | main.c:285 | `abs` returns the value or its negation, never negative |
| CArith.TruncDiv8 | main.c:171 | `/ 8` truncates toward zero: for a non-negative n, 8q ≤ n < 8q + 8; for a negative n, 8q − 8 < n ≤ 8q ≤ 0 |
| CArith.TruncDiv8Negate | main.c:301 | truncating division is symmetric: (−n)/8 == −(n/8) |
| LittleEndian.EncodeU16 | main.c:321 | a 16-bit field is written as 2 bytes |
| LittleEndian.DecodeEncodeU16 | main.c:112 | a 16-bit field read back from its 2 bytes is the same value |
| LittleEndian.EncodeDecodeU16 | main.c:112 | any 2 bytes survive reading and writing back |
| LittleEndian.EncodeU32 | main.c:322 | a 32-bit field is written as 4 bytes |
| LittleEndian.DecodeEncodeU32 | main.c:113 | a 32-bit unsigned field survives writing and reading |
| LittleEndian.EncodeDecodeU32 | main.c:113 | any 4 bytes survive reading and writing back as an unsigned field |
| LittleEndian.DecodeI32 | main.c:128 | a signed field has the same bit pattern as the unsigned reading of its 4 bytes |
| LittleEndian.EncodeI32 | main.c:328 | a signed field is written as 4 bytes |
| LittleEndian.DecodeEncodeI32 | main.c:128 | a signed field survives writing and reading |
| LittleEndian.EncodeDecodeI32 | main.c:128 | any 4 bytes survive reading and writing back as a signed field |
| Streams.InputFile.Remaining | main.c:222 | the unread bytes are exactly what follows the read position |
| Streams.InputFile.constructor | main.c:99 | an opened input file is at position 0 over its bytes |
| Streams.InputFile.Read | main.c:222-223 | `fread` of one n-byte item returns the next n bytes and advances by n, or fails and consumes the rest when fewer remain |
| Streams.InputFile.ReadU16 | main.c:112 | reads a 16-bit field at the position, or fails on a short file |
| Streams.InputFile.ReadU32 | main.c:113 | reads a 32-bit unsigned field, or fails on a short file |
| Streams.InputFile.ReadI32 | main.c:128 | reads a 32-bit signed field, or fails on a short file |
| Streams.Put | main.c:339-344 | one `fwrite` item lands whole when it fits and not at all otherwise; the file never exceeds the device |
| Streams.OutputFile.constructor | main.c:105 | an opened output file is empty |
| Streams.OutputFile.Write | main.c:342-343 | `fwrite` reports success exactly when the item fits, and appends it then |
| Headers.EncodeFileHeader | main.c:321-325 | the file header is 14 bytes |
| Headers.EncodeInfoHeader | main.c:327-337 | the info header is 40 bytes |
| Headers.EncodeHeaders | main.c:321-337 | the two headers take 54 bytes |
| Headers.DecodeEncodeFileHeader | main.c:112-116 | reading the written file header gives the same five fields, whatever follows |
| Headers.DecodeEncodeInfoHeader | main.c:127-137 | reading the written info header gives the same eleven fields |
| Headers.ParseEncodeHeaders | main.c:112-137 | written headers with the right magic parse back to themselves |
| Headers.EncodeDecodeFileHeader | main.c:321-325 | a parsed file header is written back as the same 14 bytes |
| Headers.EncodeDecodeInfoHeader | main.c:327-337 | a parsed info header is written back as the same 40 bytes |
| Headers.ParseHeadersSound | main.c:112-137 | the headers parse exactly when the input has 54 bytes and starts with "BM"; the magic check fails exactly when the first two bytes are there and are not "BM"; parsed headers encode back to the 54 bytes |
| Headers.BadMagicIgnoresRest | main.c:112-126 | the magic check fails on the first two bytes alone, whatever follows them, even nothing |
| Headers.ReadFileHeader | main.c:112-116 | the magic value is read once two bytes are there, and the five fields read in order are the decoded first 14 bytes |
| Headers.ReadInfoHeader | main.c:127-137 | the eleven fields read in order are the decoded bytes 14 to 54 |
| Headers.ReadHeaders | main.c:112-137 | the reads give `ParseHeaders` of the file; a bad magic consumes the file header, or the whole of a shorter file, and leaves the info header unread |
| Headers.PutHeaders | main.c:321-337 | the unchecked header writes add at most 54 bytes and never overfill the device |
| Headers.PutFileHeaderFits | main.c:321-325 | with 14 bytes of room the five writes append the encoded file header |
| Headers.PutInfoHeaderFits | main.c:327-337 | with 40 bytes of room the eleven writes append the encoded info header |
| Headers.PutHeadersFit | main.c:321-337 | with 54 bytes of room the header writes append exactly the encoded headers |
| Headers.WriteFileHeader | main.c:321-325 | the five `fwrite` calls leave what `PutFileHeader` describes |
| Headers.WriteInfoHeader | main.c:327-337 | the eleven `fwrite` calls leave what `PutInfoHeader` describes |
| Headers.WriteHeaders | main.c:321-337 | both headers are written back unchanged, unchecked |
| Validation.BitsOfBit | main.c:151-186 | binary digit k of the packed rule results is rule k's result |
| Validation.BitsOfBound | main.c:151-186 | seven rule results pack below 2^7 |
| Validation.BitsOfInjective | main.c:151-186 | different rule results give different error codes |
| Validation.MaskBits | main.c:151-186 | the error code is below 128, and each of its bits 1, 2, 4, 8, 16, 32, 64 is set exactly when its own rule fails |
| Validation.MaskIsSumOfViolatedBits | main.c:151-186 | the error code is the sum of the bits of exactly the rules that fail |
| Validation.ComputeErrorCode | main.c:151-186 | the seven `error_code +=` steps, none short-circuiting the others, compute `Mask` |
| Validation.ProceedIff | main.c:187-191 | the program goes on exactly when every rule but the ImageSize rule holds; the code is 16 exactly when only that rule fails |
| Validation.ExpectedBytes24 | main.c:171 | at 24 bits per pixel the expected image size is 3·Width·Height |
| Validation.ProceedingHeadersAreConsistent | main.c:151-191 | a header that passes has offset 54, a 40-byte info header, 24 bits, one plane, no compression, no colour map, and a file size of 3·W·H + 54 modulo 2^32 |
| Validation.UnsetImageSizeOnlyWarns | main.c:171-176 | a 2×2 image whose ImageSize field is 0 gets code 16 and goes on |
| PixelGrid.PixelBytes | main.c:57-60 | a pixel is 3 bytes on disk |
| PixelGrid.PixelRoundTrip | main.c:57-60 | a pixel survives writing and reading, stored Blue, Green, Red; any 3 bytes survive reading and writing |
| PixelGrid.Cells | main.c:218-235 | the contents of a pixel array form a rows × cols grid |
| PixelGrid.CellsAt | main.c:229-231 | entry (r, c) of the grid is the array's pixel (r, c) |
| PixelGrid.PixelCountIsProduct | main.c:233 | after r full rows, `pixel_count` is r·cols |
| PixelGrid.PixelCountMonotone | main.c:218-235 | the count of pixels before a row grows with the row |
| PixelGrid.OffsetBound | main.c:218-235 | every pixel's three bytes lie inside the 3·W·H-byte stream |
| PixelGrid.RowMajor | main.c:218-221 | pixel number count is at row count / cols and column count % cols |
| PixelGrid.RowBytes | main.c:339-344 | a row of n pixels is 3n bytes |
| PixelGrid.GridBytesLength | main.c:339-351 | a rows × cols grid is stored as exactly 3·rows·cols bytes |
| PixelGrid.DecodeRow | main.c:220-231 | decoding 3·cols bytes gives a row of cols pixels |
| PixelGrid.DecodeGrid | main.c:218-235 | decoding 3·rows·cols bytes gives rows rows |
| PixelGrid.DecodeRowBytes | main.c:220-231 | a decoded row is stored back as the same bytes |
| PixelGrid.DecodeGridBytes | main.c:218-235 | a decoded stream is a rows × cols grid, and storing it back reproduces the stream |
| PixelGrid.RowBytesDecode | main.c:339-344 | a stored row decodes back to itself |
| PixelGrid.GridBytesDecode | main.c:339-351 | a stored grid decodes back to itself |
| PixelGrid.DecodeRowAt | main.c:222-231 | pixel c of a decoded row comes from bytes 3c to 3c + 3 |
| PixelGrid.DecodeGridAt | main.c:218-235 | pixel (r, c) of the loaded grid comes from the 3 bytes at offset 3(r·cols + c) of the stream |
| PixelGrid.RowBytesAt | main.c:339-344 | pixel c of a row is stored at bytes 3c to 3c + 3 |
| PixelGrid.GridBytesRow | main.c:339-351 | row r occupies bytes 3·r·cols to 3·(r + 1)·cols of the stored stream |
| PixelGrid.StopAt | main.c:225-226 | the position reported for pixel number count lies inside a row |
| PixelGrid.StopAtPosition | main.c:225-226 | the pixel at row r, column c is reported as (r·cols + c, r, c) |
| PixelGrid.StopAtDivMod | main.c:225-226 | the reported row and column are count / cols and count % cols |
| PixelGrid.StopAtRow | main.c:225-226 | the reported row and column give back the count |
| PixelGrid.TransferStopMeaning | main.c:218-235 | a transfer fails exactly when the stream does not fit; it then moves 3·count bytes with count the whole pixels that fit, and stops at pixel count |
| PixelGrid.StopInRow | main.c:222-227 | room that runs out inside row r at column c stops the transfer there |
| PixelGrid.LoadedGrid | main.c:218-235 | once every row is loaded, the array holds the decoded stream |
| PixelGrid.LoadPixels | main.c:218-235 | the load fails exactly when fewer than 3·W·H bytes remain, at the first missing pixel, consuming the rest; otherwise it consumes exactly 3·W·H bytes and the grid is their decoding |
| PixelGrid.LoadRow | main.c:220-234 | one row of `fread` calls loads the row or stops at its first missing pixel |
| PixelGrid.StoreRow | main.c:341-349 | one row of `fwrite` calls appends the row, or the whole pixels that fit and stops at the first that does not |
| PixelGrid.RowStored | main.c:339-351 | a stored row extends the stored prefix of the stream |
| PixelGrid.RowCut | main.c:339-351 | a row cut after k bytes extends the prefix by k bytes |
| PixelGrid.StoppedInRow | main.c:341-349 | a store stopped inside a row has written the stream up to that pixel, and no further |
| PixelGrid.StorePixels | main.c:339-351 | the store appends the grid's stream when it fits; otherwise it appends the whole pixels that fit and fails at the first pixel that does not |
| PixelGrid.StoreRows | main.c:339-351 | the row loop of the store keeps the output equal to the stored prefix of the stream |
| PixelGrid.StoreNextRow | main.c:339-351 | one pass of the row loop extends the prefix by a row, or stops at the first pixel that does not fit |
| Convolution.RowSumThree | main.c:248-253 | the inner loop sums the three terms of a kernel row |
| Convolution.KernelSumIsLaplacian | main.c:244-254 | each channel sum is 4·centre − up − down − left − right |
| Convolution.KernelSumBounds | main.c:244-254 | each channel sum lies in [−1020, 1020] |
| Convolution.FlatNeighbourhood | main.c:244-254 | a neighbourhood of equal pixels sums to 0 |
| Convolution.ClampIsNearest | main.c:266-268 | the clamp gives the byte nearest to its argument, and leaves bytes unchanged |
| Convolution.ClampMonotone | main.c:266-268 | the clamp preserves order |
| Convolution.TruncWraps | main.c:255-263 | trunc wraps modulo 256 rather than clamping (300 → 44, −1 → 255) |
| Convolution.CenterMeaning | main.c:265-283 | center gives the byte nearest to sum + 128, and preserves order |
| Convolution.MagMeaning | main.c:284-299 | mag is symmetric in the sign of the sum, and is abs(sum) capped at 255 |
| Convolution.ScaleMeaning | main.c:300-315 | for a sum in [−1020, 1020], scale gives sum/8 + 128 in [1, 255] without wrapping; it maps −s to 256 minus the value for s, and preserves order |
| Convolution.ZeroSum | main.c:255-315 | a zero sum maps to 0 in trunc and mag, and to 128 in center and scale |
| Convolution.InteriorIsInside | main.c:241-243 | a pixel off the border has its whole 3×3 neighbourhood in the grid |
| Convolution.Convolve | main.c:239-319 | the transformed grid has the same dimensions as the input |
| Convolution.BorderUnchanged | main.c:241-242 | a pixel in the first or last row or column is copied unchanged |
| Convolution.InteriorFiltered | main.c:243-315 | each channel of an interior pixel is the mode's mapping of its Laplacian |
| Convolution.FlatInterior | main.c:244-315 | an interior pixel in a flat region becomes (0,0,0) in trunc and mag, and (128,128,128) in center and scale |
| Convolution.SmallGridUnchanged | main.c:239-242 | a grid less than 3 wide or high passes through unchanged in every mode |
| Convolution.MapChannel | main.c:255-315 | the in-place steps of each mode store `MapSum` of the channel sum |
| Convolution.NeighbourhoodSums | main.c:244-254 | the two kernel loops accumulate the three channel sums |
| Convolution.TransformPixel | main.c:241-315 | one pass of the column loop computes the filtered pixel |
| Convolution.FilledGrid | main.c:239-319 | once every row is filled, the output array holds the target grid |
| Convolution.Transform | main.c:239-319 | the output array holds `Convolve` of the input array, and the input array is not changed |
| Convolution.TransformRow | main.c:240-318 | one pass of the row loop fills one more row of the output array |
| Filter.ModeNamedIff | main.c:92-96 | a command names a mode exactly when it is that mode's name |
| Filter.CheckArgumentsIff | main.c:80-96 | the command line is accepted exactly when there are three arguments, two different file names and a known mode |
| Filter.Extent | main.c:195-196 | a loop bound is the signed value when positive and 0 otherwise |
| Filter.StreamSize | main.c:195-235 | an image of width ≤ 0 has no pixel bytes |
| Filter.FilterStream | main.c:218-351 | the filtered stream is as long as the stream read |
| Filter.Run | main.c:99-364 | the program, from opening the files to the last pixel write, ends in the outcome and leaves the output that `Expected` gives |
| Filter.Process | main.c:195-351 | after accepted headers, the run goes on as `AfterHeaders` describes |
| Filter.LoadAndTransform | main.c:195-319 | the load fails at the first missing pixel; otherwise the second grid holds the filtered stream |
| Filter.WriteImage | main.c:321-351 | the header writes, then the pixel writes, leave what `Store` describes |
| Filter.WritePixels | main.c:339-351 | the pixel writes leave what `Store` describes after the bytes already in the file |
| Filter.FilterStreamDecodes | main.c:218-351 | the written pixel stream decodes to `Convolve` of the loaded grid |
| Filter.SmallStreamUnchanged | main.c:239-242 | the stream of an image less than 3 wide or high is written back unchanged |
| Filter.Accepted | main.c:112-191 | after accepted headers, the run works on the bytes after the first 54, and the headers re-encode to those 54 bytes |
| Filter.EarlyExitsWriteNothing | main.c:112-235 | a run that ends before the writes leaves the output file empty; the pixels are read only after the headers are read and accepted |
| Filter.NotBitmapDecidedByMagic | main.c:112-126 | a magic value other than "BM" ends the run, with nothing written, on the first two bytes, whatever follows them |
| Filter.ShortFileWithWrongMagic | main.c:112-126 | a 5-byte file opening with "AB" ends at the magic check, not as a short header |
| Filter.RejectedIff | main.c:151-191 | a run is rejected exactly when the headers parse and a rule other than the ImageSize rule fails, and the reported code is the mask |
| Filter.AfterHeadersOutcomes | main.c:218-351 | after the headers a run completes or fails a read or a write; it fails a read exactly when the pixels run short |
| Filter.ReadFailedIff | main.c:218-228 | loading fails exactly when fewer than 54 + 3·W·H bytes are in the input |
| Filter.StoreWrites | main.c:339-351 | the pixel writes complete exactly when they fit after the headers; otherwise the output is the headers and the whole pixels that fit, at most 2 bytes short of the device |
| Filter.AfterHeadersWrites | main.c:218-351 | once the pixels are loaded, the filtered stream goes to the writes |
| Filter.HeaderWritesUnchecked | main.c:321-337 | an image of width ≤ 0 is reported complete on a device too small for its headers, with fewer than 54 bytes written |
| Filter.AfterHeadersDone | main.c:321-351 | a completed write on a device with room for the headers holds exactly the encoded headers and then the filtered pixel stream, and the input held all the pixels |
| Filter.DoneWritesHeadersAndFilteredPixels | main.c:112-351 | a completed run, on a device with room for the headers, writes exactly the input's 54 header bytes and then the filtered 3·W·H pixel bytes |
| Filter.SmallImageCopied | main.c:239-351 | an image less than 3 wide or high is written out byte for byte as it was read (its first 54 + 3·W·H bytes) |
| Filter.WriteFailedIff | main.c:339-351 | writing fails only when the device has less room than 54 + 3·W·H bytes, and always does then if the headers fit; nothing is ever written past the device |

## Left out

- Console output: every `printf`, including the field dump after the header reads and the failure messages. The message for a failed pixel write says "read" and prints the stale count from the load loop. The model returns the outcome and the position of the failure instead.
- `fopen` and `fclose`. The input file is given as its bytes, so a file that cannot be opened is not modelled. The output device is given by its room. The output file is opened before anything is read, so every early exit leaves it empty.
- `strcpy` of the file names into 256-byte buffers. A longer name overflows the buffer, which the model does not capture. The file check compares the names, as the program does, not the files they denote.
- `malloc` and `free` of the row-pointer grids. The model uses two `array2<Pixel>`; running out of memory is not modelled.
- Header reads: the program does not check the `fread` calls of the header fields. The magic value is read whole from any file of at least 2 bytes, so a wrong one ends the run at the magic check whatever the length; the model reports `BadHeader(BadMagic)`. On a shorter file, or on a file opening with "BM" but shorter than 54 bytes, some fields keep indeterminate values, since the header structs are local variables. The model stops such a run with `BadHeader(ShortHeader)`: exit status 1 and an empty output file, as on every header failure; C leaves the behaviour undefined.
- Validation.ExpectedBytes: `Width * Height * Bits` is taken on mathematical integers; the signed overflow of the C `int` product, undefined behaviour in C, is not modelled.
- The `Matrix` kernel is declared `char`; the model takes `char` to be signed, as on the common platforms, so the kernel entries are −1, 0 and 4.
- Host byte order and struct padding: the fields are decoded little-endian, one by one, as the program reads them on a little-endian host.
- The BMP row alignment to 4 bytes and the bottom-up row order: the program ignores both, and so does the model.
- Device behaviour of `fwrite`: each item goes in whole or not at all, with no buffering. A partial item, or a failure deferred to `fclose`, is not modelled.
- Headers.ReadInfoFront, Headers.ReadInfoBack, PixelGrid.LoadRow, PixelGrid.StoreRow, PixelGrid.StoreRows, PixelGrid.StoreNextRow, Convolution.TransformRow, Filter.Process, Filter.LoadAndTransform, Filter.WriteImage, Filter.WritePixels: helper methods split out of the single `main`. Each holds one of its loops or one stretch of its statements.
