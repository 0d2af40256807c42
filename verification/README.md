# A verified model of a Remote Desktop client

This project models the protocol core of a Rust RDP client: the graphics decoders and the
framebuffer they paint, NTLM sealing and CredSSP as a two-party exchange, the framing layers, and
the connection sequence. Where the program changes state (a pixel buffer, a reader, a keystream, a
transport), the model is a class or a method with loops. Each of these is proved against a
specification function on values. The properties below are then proved about those functions, for
every input and every run.

`dafny verify dfyconfig.toml` checks everything.

## Layout

| files | what they model |
|---|---|
| `Prelude`, `Bits`, `Crypto` | bytes and wire integers, XOR, the cryptographic primitives as parameters |
| `RleOrders`, `RleBudget`, `RlePixels`, `RleDecoder`, `RlePrinter`, `RleStream`, `RleEncoder` | interleaved RLE: meaning of a stream, how many and which pixels it paints, the in-place decoder, its inverse, the picture of a list of orders, a reference encoder |
| `PlanarFormat`, `PlanarDecoder`, `PlanarInverse` | the RDP 6.0 planar codec: meaning, decoder, inverse |
| `Framebuffers`, `Bitmap`, `FastPath`, `Displays` | clipped blits, bitmap updates, fast-path PDUs, fragment reassembly and the painter's law |
| `Egfx` | the graphics pipeline's commands and surface store |
| `Sspi`, `Der`, `CredSsp`, `Ntlm`, `NlaClient`, `NlaServer`, `NlaExchange` | sealing, DER, TSRequest, NTLM messages, the client, a server with formulas of its own, the whole exchange between them |
| `Tpkt`, `X224`, `Per`, `Mcs`, `SharePdu`, `SlowPath`, `Demux` | the slow-path stack and the byte-stream demultiplexer |
| `VChannel`, `Dvc` | channel chunks and dynamic channels |
| `Connection`, `RdpServer`, `ConnectionWire`, `ConnectionTrace`, `ConnectionServer` | the connection sequence, what a server reads and prints, the client's encodings read by it, the trace of every run, and an honest server |

## Conventions

- `Result` carries the program's errors; each protocol message of the program is one constructor.
  `Error.Panic` marks inputs on which the Rust code stops instead of returning: NTLM messages cut
  inside fields that are read without a length check, and an X.224 header that points past the end.
- Rust arithmetic that wraps or truncates is written out: 16- and 32-bit length fields, MCS user ids
  (offsets from 1001 modulo 2^16, as in a release build), sequence numbers modulo 2^32, the 64-bit
  integer and length registers.
- Preconditions are those of the code. The RLE decoder never checks its destination, so the stream's
  pixel budget, computed from its headers alone, must fit the bitmap (`RleDecoder.Decompress`). A
  planar RLE bitmap of positive width needs a row (`PlanarDecoder.SizeAllowed`). A blit needs as many
  bytes as its rectangle has. No other decoder has a precondition.
- Servers (`RdpServer`, `NlaServer`) are written in the bytes and formulas of the standards and share no
  formula with the client; what the client prints is proved to be what they read. `NlaServer` takes
  messages apart with the program's own decoders, after the TSRequests and credentials themselves are proved byte for byte.
- Digests and HMAC are arbitrary functions of fixed output length. RC4 is XOR with an arbitrary
  keystream of key and position. Strings are already encoded bytes.

## Where the code and its comments differ

- `src/graphics/planar.rs:10-12` says chroma-subsampled and YCoCg modes return an error; the code
  decodes them, and so does the model.
- A planar header of `0x00` means raw planes with an alpha plane by the bit layout
  (`PlanarInverse.RawAlphaHeader`), but the code takes it as interleaved BGRA. The decoder then returns
  the planes woven exactly if the bytes happen to coincide (`PlanarInverse.HeaderZeroRoundTrip`), which
  one pixel already refutes (`PlanarInverse.HeaderZeroPixel`). The inverse theorem leaves out that
  header and no other.
- `src/nla/sspi.rs:101-117` checks only the encrypted checksum of a signature: version and sequence
  number fields may hold anything (`Sspi.SignatureHeaderUnchecked`).
- `src/mcs/per.rs:9` says larger lengths are not emitted here; the code emits a fragmented form that its
  own reader refuses (`Per.LengthReadsBack`).
- `src/connection.rs:50-51` calls the session's channel ids virtual-channel ids; the list also ends
  with the message channel's id, and a server channel equal to the user or I/O channel is missing.
  `ConnectionServer.ServerChannelsOnly` says exactly when it is the server's list.
- `src/connection.rs:230-243` drains four finalization replies, but sixteen PDUs that are no data PDUs
  end the drain with success too (`ConnectionServer.DrainSucceeds`), and any share control PDU of
  eighteen bytes counts as one (`ConnectionServer.AnyLongShareCounts`).
- `src/multitransport.rs:48-51` says the scan accepts the offset whose protocol field is valid. A wrapped
  request whose id ends in a protocol number is taken at the wrong offset, which goes unnoticed only if
  wrapper and cookie repeat the request's own fields (`ConnectionServer.WrappedRequestDetected`).
- Neither `src/nla/ntlm.rs` nor `src/x224.rs:118-127` documents that it can panic. Which messages and
  streams reach that is `Ntlm.ChallengeStops`, `NlaExchange.CallStops` and `Demux.ReadsStop`.
- A virtual channel's declared total length is stored and never compared, so reassembly is right for
  messages of any size (`VChannel.MessageReassembles`).

## Model

| member | source | states |
|---|---|---|
| RleDecoder.ReadPx | src/graphics/rle.rs:101-107 | a pixel read byte by byte is the little-endian value of its bytes |
| RleDecoder.WritePx | src/graphics/rle.rs:108-112 | a pixel written byte by byte is its little-endian bytes, and nothing else changes |
| RleDecoder.BlendPx | src/graphics/rle.rs:152-157 | a pixel XORed with the one a scanline back, or the value itself on the first scanline, extends the painted prefix by one cell |
| RleDecoder.CopyPx | src/graphics/rle.rs:158-162 | the background pixel: black on the first scanline, the pixel above later |
| RleDecoder.PaintBackground | src/graphics/rle.rs:138-166 | a background run in place paints the cells of the order, with one inserted foreground pixel after another background run |
| RleDecoder.PaintForeground | src/graphics/rle.rs:180-184 | a foreground run in place paints the order's cells and nothing beyond |
| RleDecoder.PaintDithered | src/graphics/rle.rs:193-198 | a dithered run alternates its two pixels |
| RleDecoder.PaintColor | src/graphics/rle.rs:206-209 | a color run repeats one pixel |
| RleDecoder.WriteFgBg | src/graphics/rle.rs:262-286 | the pixels of one mask byte: foreground where the bit is set, background elsewhere |
| RleDecoder.PaintMaskByte | src/graphics/rle.rs:220-224 | one mask byte moves the painted part of an image on by its bits |
| RleDecoder.PaintMasks | src/graphics/rle.rs:219-226 | a foreground/background image paints the cells of all its masks, eight pixels a byte, or fails exactly when a mask byte is missing |
| RleDecoder.PaintImage | src/graphics/rle.rs:228-236 | a raw color image paints its pixels |
| RleDecoder.PaintPayload | src/graphics/rle.rs:137-256 | for each of the twelve order kinds: same result, cursor, foreground, insertion flag and pixels as the order's meaning |
| RleDecoder.PaintOrder | src/graphics/rle.rs:134-256 | one order parsed and painted in place agrees with parsing it and applying it as a value |
| RleDecoder.DecodeStream | src/graphics/rle.rs:114-258 | the decoding loop leaves in the buffer exactly what the order-by-order semantics paints, with the same error |
| RleDecoder.Decompress | src/graphics/rle.rs:95-259 | for every stream that fits and every depth, the decoder returns the bitmap of the recursive semantics over output, foreground, insertion and first-line flags, whose pixels `RleStream.AcceptedStreamPaints` gives |
| RlePixels.OrderPaintsItsPixels | src/graphics/rle.rs:129-257 | every pixel of every order is the one the format prescribes, given the pixel one scanline back in the finished output; an order begun on the first scanline treats all its pixels as first-line |
| RleStream.StreamPaintsItsPixels | src/graphics/rle.rs:114-258 | the stream of any list of orders that fits decodes, and each pixel is the one the list prescribes: foreground of the last earlier set-foreground run or image, else white; insertion after a background run unless the first scanline ended in between; first-line exactly if the order begins on it |
| RleStream.ForegroundIsLastSet | src/graphics/rle.rs:180-217 | that foreground, as a quantifier: the k-th order sets it and none after it does |
| RleStream.AcceptedStreamPaints | src/graphics/rle.rs:95-259 | every stream that decodes within its budget is the print of such a list and paints exactly its picture |
| RleStream.RestIsBlack | src/graphics/rle.rs:95-117 | what the orders leave of the bitmap is zero |
| RleOrders.ParsedIsWellFormed | src/graphics/rle.rs:129-257 | every accepted order consumes at least one byte, ends inside the stream, and is well formed |
| RleBudget.ExtentOfOrder | src/graphics/rle.rs:63-91 | the headers alone give the end of an order and the pixels it paints, also for an order cut off by the end |
| RleBudget.BudgetStep | src/graphics/rle.rs:129-257 | the budget of a stream is an order's pixels plus the budget of what follows |
| RleBudget.RunPaintsBudget | src/graphics/rle.rs:129-258 | an accepted stream paints exactly its budget, whatever the pixels |
| RleBudget.RunPrefix | src/graphics/rle.rs:129-258 | an accepted stream never takes back a byte it painted |
| RleBudget.CutOrderIsError | src/graphics/rle.rs:120-127 | a stream cut anywhere strictly inside an order is an error |
| RleBudget.CutStream | src/graphics/rle.rs:114-258 | a decodable stream cut short decodes exactly if the cut falls between two orders; the rest then goes on from there to the same result |
| RleBudget.OrderDependsOnItsBytes | src/graphics/rle.rs:63-91 | an order and its extent are decided by the bytes it covers |
| RlePrinter.HeaderReadsBack | src/graphics/rle.rs:52-91 | compact, extended and mega headers read back to kind, length and size for every code |
| RlePrinter.PrintedOrderParses | src/graphics/rle.rs:52-91 | every order in every encoding that fits, anywhere in a stream, parses back to itself |
| RlePrinter.ParsedOrderWasPrinted | src/graphics/rle.rs:52-91 | and nothing else parses: an accepted order is some print of itself |
| RlePrinter.UnknownOrders | src/graphics/rle.rs:52-61 | exactly the header bytes 0xA0-0xBF, 0xF5, 0xFB, 0xFC and 0xFF begin no order |
| RlePrinter.CutOrderError | src/graphics/rle.rs:63-127 | an order cut off anywhere names the byte it misses first, and the masks that are there have been painted |
| RlePrinter.DepthDecides | src/graphics/rle.rs:12-28 | 8, 15, 16 and 24 bits are supported; a pixel has the fewest bytes that hold them, and white has all of them set |
| RlePrinter.PrintedStreamRuns | src/graphics/rle.rs:129-258 | decoding a printed list of orders performs exactly those orders |
| RleEncoder.AdjacentBackgroundRuns | src/graphics/rle.rs:138-166 | when two adjacent background runs are one longer run: past the first scanline exactly if the inserted foreground is zero or the longer run inserts it too; across its end exactly if the first scanline is zero as far as it is copied |
| RleEncoder.EncodedPixelsRedraw | src/graphics/rle.rs:137-227 | the reference encoder's orders, applied, redraw any image |
| RleEncoder.DecodeUndoesEncode | src/graphics/rle.rs:95-259 | for every bitmap of every depth and size, decoding its encoding returns it, and the encoding's budget is exactly the bitmap |
| PlanarDecoder.ReadScanline | src/graphics/planar.rs:145-180 | one scanline of literals and runs fills its row as the recursive reading does, with the same errors; a run repeats the last byte of the same scanline |
| PlanarDecoder.DecodeRlePlane | src/graphics/planar.rs:141-194 | an RLE plane in place is the recursive reading of its rows, deltas undone |
| PlanarDecoder.UndoDeltas | src/graphics/planar.rs:183-193 | row by row, each byte is the byte above plus the signed delta, modulo 256 |
| PlanarDecoder.ReadPlane | src/graphics/planar.rs:88-100 | a plane, raw or RLE, with the cursor after it |
| PlanarDecoder.DecodeLossless | src/graphics/planar.rs:56-85 | the planes in order, woven into RGBA, opaque without an alpha plane |
| PlanarDecoder.DecodeLossy | src/graphics/planar.rs:103-137 | the four planes, chroma upsampled and transformed pixel by pixel |
| PlanarDecoder.DecodeUncompressed | src/graphics/planar.rs:29-43 | header zero: BGRA pixels with red and blue swapped |
| PlanarDecoder.Decode | src/graphics/planar.rs:22-85 | the whole decoder agrees with the format's meaning for every stream and size; header bits and pixels by `PlanarInverse.HeaderReads`, `LosslessPixel` and `LossyPixelOfStream` |
| PlanarFormat.ChromaInRange | src/graphics/planar.rs:112-116 | every chroma index is in range, odd sizes with subsampling included |
| PlanarFormat.PlaneLength | src/graphics/planar.rs:88-100 | a plane that decodes has exactly width times height bytes |
| PlanarInverse.HeaderReads | src/graphics/planar.rs:16-19 | a header printed from its parts, with any reserved bits, reads back to them: color loss level in bits 0-2, subsampling 3, RLE 4, no alpha 5 |
| PlanarInverse.HeaderWasPrinted | src/graphics/planar.rs:16-19 | and every byte is such a header |
| PlanarInverse.DeltaEncodes | src/graphics/planar.rs:186-192 | every byte difference has a delta byte that decodes to it |
| PlanarInverse.DeltaDecodes | src/graphics/planar.rs:186-192 | and every delta byte is the one of its difference |
| PlanarInverse.UndeltaOfRedelta | src/graphics/planar.rs:183-193 | undoing the deltas of any plane restores it |
| PlanarInverse.RedeltaOfUndelta | src/graphics/planar.rs:183-193 | every byte grid is the delta form of the plane it decodes to |
| PlanarInverse.SegmentsRead | src/graphics/planar.rs:145-180 | any valid sequence of literal and run segments filling a scanline reads back, wherever it stands |
| PlanarInverse.LineWasPrinted | src/graphics/planar.rs:145-180 | every scanline that decodes was printed from valid segments |
| PlanarInverse.BadSegmentFails | src/graphics/planar.rs:145-180 | a segment whose literals or whose run do not fit the scanline, or whose bytes are not there, is an error of its own kind |
| PlanarInverse.PlaneReads | src/graphics/planar.rs:141-194 | a coded plane reads back between any bytes, and reading stops at its last byte |
| PlanarInverse.EveryPlaneHasCode | src/graphics/planar.rs:141-194 | every plane can be written raw or run-length coded |
| PlanarInverse.ShortStreams | src/graphics/planar.rs:22-100 | an empty stream, too few interleaved pixels, and a raw plane cut off, with what they miss |
| PlanarInverse.PlaneDependsOnItsBytes | src/graphics/planar.rs:88-100 | a plane's decoding depends on the bytes it consumes and no others |
| PlanarInverse.LosslessRoundTrip | src/graphics/planar.rs:22-85 | a header printed from RLE, alpha and reserved bits, then optional alpha, red, green and blue in any valid coding of that kind, decode to exactly those planes, woven |
| PlanarInverse.LosslessPixel | src/graphics/planar.rs:77-84 | pixel i is its own byte of each plane, with alpha 255 where there is no alpha plane |
| PlanarInverse.WovenPixel | src/graphics/planar.rs:77-84 | each pixel of the output holds its own byte of each plane |
| PlanarInverse.LossyRoundTrip | src/graphics/planar.rs:103-137 | the same for alpha, luma and the two chroma planes at their subsampled size, for every color loss level |
| PlanarInverse.HeaderZeroRoundTrip | src/graphics/planar.rs:22-85 | raw planes with alpha under header zero come back woven exactly if at every pixel the interleaved reading happens to have the same bytes |
| PlanarInverse.HeaderZeroPixel | src/graphics/planar.rs:29-43 | one pixel with raw planes under header zero comes back with its channels in other places; right only if red equals green and alpha equals blue |
| PlanarInverse.UncompressedRoundTrip | src/graphics/planar.rs:29-43 | interleaved pixels keep place and alpha and swap red with blue, whatever follows them |
| PlanarInverse.ChromaOfBlock | src/graphics/planar.rs:112-116 | the bounds on the chroma index never bite: a subsampled pixel takes the sample of its own 2x2 block |
| PlanarInverse.ChannelsFit | src/graphics/planar.rs:122-132 | for any color loss level scaled chroma and all three channels stay far inside 32 bits |
| PlanarInverse.RecoverPixel | src/graphics/planar.rs:122-132 | luma and scaled chroma of an unclamped pixel are a function of its three channels |
| PlanarInverse.LossyIsRecoverable | src/graphics/planar.rs:119-137 | wherever no channel clamps, luma and scaled chroma can be recovered from the decoded image |
| PlanarInverse.LossyPixelOfStream | src/graphics/planar.rs:103-137 | pixel i of a lossy stream from the bytes of its planes: signed chroma of its own 2x2 block times two to the color loss level, the linear map, the nearest byte of each channel |
| Framebuffers.Framebuffer.BlitRgba | src/graphics/framebuffer.rs:30-45 | the row-by-row clipped copy is the blit of the whole rectangle |
| Framebuffers.BlitPixel | src/graphics/framebuffer.rs:30-45 | a blit replaces exactly the covered pixels inside the framebuffer, each by its own source pixel |
| Framebuffers.SamePixelsSameImage | src/graphics/framebuffer.rs:7-11 | pixels determine an image |
| Bitmap.ParseBitmapUpdate | src/graphics/bitmap.rs:29-72 | the cursor-advancing parser returns the recursive reading of the rectangles, with the same errors |
| Bitmap.UpdateReadsBack | src/graphics/bitmap.rs:29-72 | any list of rectangles, with or without compression headers, reads back |
| Bitmap.CutRect | src/graphics/bitmap.rs:29-72 | an update or rectangle cut off names its fields, its compression header or its data, whichever it misses first |
| Bitmap.ToRgba | src/graphics/bitmap.rs:75-114 | the conversion loop writes the flipped, converted pixels |
| Bitmap.RgbaPixel | src/graphics/bitmap.rs:75-114 | pixel (x, y) is the conversion of the bytes at column x of row height - 1 - y, for 15, 16, 24 and 32 bits |
| Bitmap.PackedPixel | src/graphics/bitmap.rs:94-101 | both 16-bit layouts unpack each channel from its own bits |
| Bitmap.TrueColorPixel | src/graphics/bitmap.rs:102-103 | at 24 and 32 bits blue, green and red in this order, opaque |
| Bitmap.WhiteIsWhite | src/graphics/rle.rs:21-28 | the white pixel of an RLE stream converts to opaque white at every depth |
| Bitmap.DepthsConvert | src/graphics/bitmap.rs:75-87 | 15, 16, 24 and 32 bits convert exactly when there are enough bytes; other depths are refused |
| Bitmap.EightBitsNeverPaint | src/graphics/bitmap.rs:117-131 | an 8-bit rectangle, though RLE decodes it, is always refused |
| Bitmap.ScaleRounds | src/graphics/bitmap.rs:92-92 | a channel scaled to eight bits is the nearest value |
| Bitmap.Apply | src/graphics/bitmap.rs:117-131 | a rectangle that decodes is blitted; one that fails leaves the framebuffer alone |
| Bitmap.DecodedRectLength | src/graphics/bitmap.rs:117-131 | whatever the codec, a decoded rectangle has exactly four bytes a pixel |
| Bitmap.NoLaterPainter | src/graphics/update.rs:67-74 | the last painter of a pixel is the last: no later rectangle decodes and covers it |
| Bitmap.LastRectWins | src/graphics/update.rs:67-74 | the painter's law: a pixel has the color of the last rectangle that decodes and covers it, else its old color |
| Bitmap.ColorOfPixels | src/graphics/bitmap.rs:117-131 | for an uncompressed or RLE rectangle that color is the conversion of the mirrored source pixel |
| Bitmap.ColorOfPlanar | src/graphics/bitmap.rs:117-123 | for a compressed 32-bit rectangle it is the planar decoder's pixel, top row first, neither mirrored nor converted |
| Bitmap.ColorOfPlanes | src/graphics/bitmap.rs:117-123 | and for one printed from coded planes it is the four plane bytes of that pixel |
| FastPath.ReadFpLength | src/graphics/fastpath.rs:39-55 | value of a one- or two-byte length and the bytes after it |
| FastPath.ParseOutputPdu | src/graphics/fastpath.rs:61-112 | the loop over a PDU's body returns the recursive reading of its updates, with the same errors |
| FastPath.PduReadsBack | src/graphics/fastpath.rs:61-112 | under both length forms, with any compression bits and whatever follows, a PDU reads back to its updates |
| FastPath.ZeroLengthTakesAll | src/graphics/fastpath.rs:71-85 | a declared length that does not cover the header stands for all bytes there are |
| FastPath.BadPdus | src/graphics/fastpath.rs:61-80 | empty, not fast-path, encrypted and cut-off headers are each their own error |
| FastPath.CutPdu | src/graphics/fastpath.rs:61-85 | a PDU cut off behind its length is short by what was cut off |
| FastPath.CutUpdate | src/graphics/fastpath.rs:86-112 | an update cut off misses its flags, its size or the rest of its data |
| Displays.Display.Process | src/graphics/update.rs:65-96 | one complete payload: bitmaps painted or skipped one by one, cursor, position and dirty flag |
| Displays.Display.Apply | src/graphics/update.rs:41-62 | one update, reassembling FIRST, NEXT and LAST |
| Displays.Display.ApplyAll | src/graphics/update.rs:99-104 | updates in order, stopping at the first error |
| Displays.FragmentationIsTransparent | src/graphics/update.rs:41-96 | FIRST, any NEXT and LAST show the same screen and return the same result as the whole payload in one SINGLE where LAST stands, whatever comes in between or was pending |
| Displays.SessionShows | src/graphics/update.rs:41-104 | a session of update lists, each stopping at its first error while the display keeps what it has, shows exactly the payloads completed before those errors, in order, whatever fragments span the lists |
| Displays.SessionPaints | src/graphics/update.rs:41-104 | any session of update lists, errors included, paints exactly the rectangles of the payloads completed and not refused, in order |
| Displays.SessionPixel | src/graphics/update.rs:41-104 | after any session, errors included, every framebuffer pixel has the color of the last decodable rectangle that covers it, else its old color |
| Displays.SessionCursor | src/graphics/update.rs:65-96 | after any session the cursor is that of the last pointer payload, hidden if that hides it, the position is the last one sent, and the dirty flag says whether any payload changed something |
| Egfx.ParseAll | src/egfx.rs:153-161 | the loop returns the recursive reading of all commands, with the same error |
| Egfx.CommandReadsBack | src/egfx.rs:79-150 | every framed command, with any flags, reserved and trailing bytes, reads back and consumes exactly itself |
| Egfx.StreamReadsBack | src/egfx.rs:153-161 | a concatenation of framed commands parses to exactly those commands |
| Egfx.BodyErrs | src/egfx.rs:92-168 | a command is refused exactly when its fields or the announced bitmap data are cut off |
| Egfx.HeaderErrs | src/egfx.rs:79-90 | or when its header is cut off or declares less than itself or more than there is |
| Egfx.DecodeSurfaceBits | src/egfx.rs:250-273 | codec choice, size check and conversion of surface bits |
| Egfx.UncompressedPixel | src/egfx.rs:254-268 | an uncompressed pixel keeps its place, swaps red with blue and becomes opaque |
| Egfx.PlanarSurfacePixel | src/egfx.rs:250-274 | under the planar codec each pixel has its own byte of each plane |
| Egfx.CodecErrs | src/egfx.rs:250-274 | too few uncompressed bytes, codecs left to others and unknown codecs |
| Egfx.DestinationCovers | src/egfx.rs:56-61 | right and bottom are exclusive; a reversed rectangle covers nothing |
| Egfx.SurfaceStore.Apply | src/egfx.rs:215-238 | the store of framebuffers changes as the store of images does, with the same result |
| Egfx.SurfaceStore.Wire | src/egfx.rs:230-235 | bits that decode are blitted into the target surface only; others change nothing |
| Egfx.ErrorsLeaveStore | src/egfx.rs:230-235 | a command fails exactly for an unknown surface or undecodable bits, and then the store is untouched |
| Egfx.AppliedAnswers | src/egfx.rs:215-238 | which error it is, and that a command asks to present exactly the surface it painted |
| Egfx.SurfacesOfRun | src/egfx.rs:215-238 | after any commands the surfaces are those created and not deleted since, with the size of their latest creation, and mappings likewise |
| Egfx.AppliedPixel | src/egfx.rs:215-238 | one command changes a pixel of a surface only by creating the surface anew or painting that pixel |
| Egfx.PixelsOfRun | src/egfx.rs:215-238 | after any commands every pixel of a surface has the latest color painted on it since the surface's creation |
| Crypto.Rc4Involution | src/nla/ntlmv2.rs:65-70 | RC4 at the same keystream position twice is the identity |
| Bits.XorBit | src/graphics/rle.rs:152-157 | exclusive or, bit by bit |
| Bits.BitIsDigit | src/graphics/rle.rs:262-286 | mask bit k is the binary digit of weight two to the k |
| Crypto.Rc4.ApplyKeystream | src/nla/sspi.rs:84-89 | in place, the next keystream bytes are XORed in and the position moves by the length |
| Sspi.SecurityContext.constructor | src/nla/sspi.rs:51-69 | keys by role, both handles and counters at their start |
| Sspi.SecurityContext.Checksum | src/nla/sspi.rs:72-81 | the encrypted first eight HMAC bytes, on the handle where the message left it |
| Sspi.SecurityContext.Seal | src/nla/sspi.rs:84-98 | version, checksum, sequence number and ciphertext; keystream and counter move on |
| Sspi.SecurityContext.Unseal | src/nla/sspi.rs:101-117 | plaintext or mismatch; on a mismatch the keystream has moved and the counter has not |
| Sspi.OpensBlob | src/nla/sspi.rs:84-117 | a context whose peer side stands where a message was sealed opens it |
| Sspi.SignatureHeaderUnchecked | src/nla/sspi.rs:101-117 | version and sequence number fields of a signature do not matter |
| Sspi.OnlyOwnSealingOpens | src/nla/sspi.rs:84-117 | a blob opens to a message exactly if checksum and ciphertext are those of the message sealed at that keystream position and sequence number |
| NlaExchange.ServerOpens | src/nla/sspi.rs:84-98 | what the client seals opens at a server that has its own key sentences, checksum formula and counters and checks every field |
| NlaExchange.ClientOpens | src/nla/sspi.rs:101-117 | and what that server seals opens at the client |
| NlaExchange.ClientStarts | src/nla/sspi.rs:51-69 | both begin with the same keys for each direction |
| Sspi.TamperingNeedsCollision | src/nla/sspi.rs:101-117 | changed ciphertext under the same checksum opens exactly if its plaintext collides in the truncated MAC |
| Sspi.RefusedBlobMoves | src/nla/sspi.rs:101-117 | a refused blob uses up keystream but no sequence number; one without a signature uses up nothing |
| Sspi.NextKeepsLockstep | src/nla/sspi.rs:84-117 | every seal or in-order delivery keeps both directions in step, and a delivery returns the sealed message |
| Sspi.EveryDeliveryOpens | src/nla/sspi.rs:84-117 | in any interleaving of seals by both roles, every in-order delivery opens to its message |
| Sspi.SenderPosition | src/nla/sspi.rs:84-98 | a sender's keystream offset is the sum of length plus eight over its messages; its counter is their number modulo 2^32 |
| Sspi.ReceiverPosition | src/nla/sspi.rs:101-117 | the receiver is behind by exactly the messages in flight, in offset and counter |
| Der.EncodeLen | src/nla/der.rs:19-33 | short form, or the count and the minimal big-endian octets |
| Der.DecodeLen | src/nla/der.rs:126-143 | value and size of a length of at most four octets |
| Der.LenReadsBack | src/nla/der.rs:126-143 | a printed length reads back exactly below 2^32 and is refused above |
| Der.BadLengths | src/nla/der.rs:126-143 | the indefinite form, more than four octets and cut-off lengths are refused |
| Der.EncodeInteger | src/nla/der.rs:45-59 | the minimal octets with a sign pad where needed |
| Der.IntegerReadsBack | src/nla/der.rs:115-122 | every 64-bit integer reads back, padded or not |
| Der.IntegerIsMinimal | src/nla/der.rs:45-59 | an integer's octets read as a positive number, and none is there in vain |
| Der.RegisterIsValueModulo | src/nla/der.rs:115-122 | an integer of any length is read modulo 2^64 |
| Der.TlvReadsBack | src/nla/der.rs:89-103 | a printed element reads back and leaves what follows it exactly when its value is below 2^32 bytes |
| Der.BadElements | src/nla/der.rs:89-112 | elements cut off, and elements of another tag |
| Der.Reader.ReadTlv | src/nla/der.rs:89-103 | the reader returns the next element and keeps the rest |
| Der.Reader.Expect | src/nla/der.rs:106-112 | the value if the tag is the one wanted |
| Der.Reader.ReadInteger | src/nla/der.rs:115-122 | the integer's octets shifted into a 64-bit register |
| CredSsp.Encode | src/nla/credssp.rs:84-109 | fields in order, optional ones only when present, tokens only when there are some |
| CredSsp.Decode | src/nla/credssp.rs:111-158 | the reading loop returns the recursive reading of the fields, with the same errors |
| CredSsp.BodyReadsBack | src/nla/credssp.rs:84-158 | every version, token list, optional field and error code is restored |
| CredSsp.RequestRoundTrip | src/nla/credssp.rs:84-158 | decoding inverts encoding, with anything after it, exactly when the body is below 2^32 bytes, and refuses it otherwise |
| CredSsp.RequestErrs | src/nla/credssp.rs:111-158 | decoding any bytes gives a request or an error and never stops the program |
| CredSsp.FieldsPassedOver | src/nla/credssp.rs:111-158 | fields of other tags and nonces of another length are passed over |
| CredSsp.LaterFieldCounts | src/nla/credssp.rs:111-158 | of two fields of one kind the later counts |
| CredSsp.CredsReadBack | src/nla/credssp.rs:48-65 | the three strings of TSCredentials are read back by their nesting |
| NlaExchange.RequestsAreStandard | src/nla/credssp.rs:84-109 | the client's three requests are, byte for byte, the elements of the standard with version 6 |
| NlaExchange.CredentialsAreStandard | src/nla/credssp.rs:48-65 | and so are its credentials |
| Ntlm.NegotiateRoundTrip | src/nla/ntlm.rs:130-161 | a NEGOTIATE reads back exactly when its version flag covers the version it carries |
| Ntlm.ChallengeRoundTrip | src/nla/ntlm.rs:174-215 | every CHALLENGE within the 16-bit lengths reads back |
| Ntlm.ChallengeIsLenient | src/nla/ntlm.rs:174-195 | a CHALLENGE of full length is never refused; payloads outside it are taken to be empty |
| Ntlm.ChallengeStops | src/nla/ntlm.rs:174-195 | a CHALLENGE with a good signature stops the decoder exactly if it is shorter than 24 bytes or cut between 40 and 48; the same for the other two messages below 32 and 64 bytes; an input that does it |
| Ntlm.MessageErrs | src/nla/ntlm.rs:105-120 | messages cut off, of another signature or of another type, each with its error |
| Ntlm.PayloadOutside | src/nla/ntlm.rs:95-102 | a payload outside its message names where it would have ended |
| Ntlm.EncodeAuthenticate | src/nla/ntlm.rs:239-270 | the running-offset layout is header, six descriptors, fixed fields and the payloads in order |
| Ntlm.PayloadReads | src/nla/ntlm.rs:95-102 | a descriptor reads back to place and 16-bit length, and designates that much of its payload |
| Ntlm.AuthenticateRoundTrip | src/nla/ntlm.rs:239-313 | decoding inverts encoding for all six payloads exactly when each fits a 16-bit length |
| Ntlm.DescriptorsTile | src/nla/ntlm.rs:239-270 | the descriptors are disjoint, in order, and tile the message from offset 88 to its end |
| Ntlm.ComputeMic | src/nla/ntlm.rs:274-282 | only the MIC changes, and the wire message then verifies: its bytes 72 to 88 are the HMAC over the three messages with those bytes zeroed |
| Ntlm.MicVerifies | src/nla/ntlm.rs:274-282 | the computed MIC makes the wire message verify |
| Ntlm.OnlyMicVerifies | src/nla/ntlm.rs:274-282 | and no other MIC does |
| Ntlm.ParseAvPairs | src/nla/ntlm.rs:317-333 | the loop returns the pairs before the terminator or the first truncation |
| Ntlm.PairsReadBack | src/nla/ntlm.rs:317-333 | a printed list of pairs reads back, whatever follows its terminator |
| Ntlm.CutPairs | src/nla/ntlm.rs:317-333 | pairs without a terminator end where the next does not fit |
| Ntlm.TempLayout | src/nla/ntlmv2.rs:12-23 | time, client challenge and target info stand at their places, zeros between |
| Ntlm.ExtractTimestamp | src/nla/client.rs:196-205 | the first eight-byte timestamp among the pairs, or zeros |
| NlaClient.CredSspClient.Start | src/nla/client.rs:100-106 | the first request and the remembered NEGOTIATE bytes |
| NlaClient.CredSspClient.ProcessChallenge | src/nla/client.rs:110-161 | the AUTHENTICATE request or the error, and a fresh security context only on success; the request's content by `NlaExchange.ServerRecoversKey` |
| NlaClient.CredSspClient.ProcessPubkey | src/nla/client.rs:165-192 | the credentials request or the error, and where the security context then stands |
| NlaExchange.ServerRecoversKey | src/nla/client.rs:110-161 | a server with formulas of its own accepts flags, proof, blob, LM response and MIC of the client's token and recovers the exported key |
| NlaExchange.ProofOfClient | src/nla/client.rs:119-124 | the NT response is a proof over the server's challenge and a blob with its first timestamp, the client challenge and its target info |
| NlaExchange.LmResponseOnWire | src/nla/client.rs:125-130 | for target info printed from any pairs: 24 zeros if one of them is a timestamp, else the HMAC over both challenges and the client challenge |
| NlaExchange.ThreeMessages | src/nla/sspi.rs:84-117 | client hash, server hash and credentials each open to what was sealed |
| NlaExchange.WholeFlow | src/nla/client.rs:100-192 | for all credentials, keys and entropy within the field limits, and any client state, the exchange with that server succeeds; the server ends with the client's exported key and exactly its credentials |
| NlaExchange.RunInvariant | src/nla/client.rs:100-192 | after any calls: NEGOTIATE bytes exactly if started, a security context exactly if some challenge succeeded, keyed by the exported key |
| NlaExchange.CredentialsOnlyAfterBinding | src/nla/client.rs:165-192 | in every run credentials leave exactly when no error code came, a challenge succeeded before, and the sealed hash is the expected binding hash sealed at the client's own position under keys of the exported key, version and sequence fields aside |
| NlaExchange.RefusalsYieldNothing | src/nla/client.rs:165-175 | an error code or a missing pubKeyAuth yields no credentials and changes nothing |
| NlaExchange.CallStops | src/nla/client.rs:110-118 | a call stops the client exactly if it is given a request whose first token is a cut CHALLENGE, and then its state is unchanged |
| NlaExchange.CutChallengeStops | src/nla/client.rs:110-118 | an encoded request that does so in every state |
| Tpkt.PacketReadsBack | src/tpkt.rs:19-59 | every payload that fits a packet reads back, whatever follows it |
| Tpkt.PacketIsStandard | src/tpkt.rs:19-34 | version 3, a zero, the length in two bytes, the payload |
| Tpkt.PacketErrs | src/tpkt.rs:36-59 | packets cut off, of another version, declaring less than their header, or too long to send |
| X224.WrappedReadsBack | src/x224.rs:110-127 | a wrapped payload unwraps to itself |
| X224.DataErrs | src/x224.rs:110-127 | a payload is wrapped in 02 F0 80; shorter or other TPDUs are refused |
| Per.WriteLength | src/mcs/per.rs:10-20 | one, two or three bytes are appended, and before any bytes they read back as the length below 0x4000 and are refused from there on |
| Per.ReadLength | src/mcs/per.rs:23-39 | value of a length and the bytes after it; a fragmented form is refused |
| Per.LengthReadsBack | src/mcs/per.rs:10-39 | the reader takes back exactly the lengths below 0x4000 and refuses all others |
| Per.LengthBytes | src/mcs/per.rs:10-20 | the bytes of all three forms |
| Per.LengthErrs | src/mcs/per.rs:23-39 | lengths cut off and fragmented ones are refused |
| Mcs.BuildSendDataRequest | src/mcs/domain.rs:102-111 | what a server reads from it as an indication: channel and data below 0x4000 bytes, a refusal from there on |
| Mcs.ParseSendDataIndication | src/mcs/domain.rs:114-136 | channel and payload, or the error of the first missing part |
| Mcs.IndicationReadsBack | src/mcs/domain.rs:102-136 | a re-tagged request reads back exactly below 0x4000 bytes |
| Mcs.ConfirmsReadBack | src/mcs/domain.rs:42-99 | attach and join confirms give user and channel, the requested channel when none is confirmed |
| Mcs.ConfirmErrs | src/mcs/domain.rs:42-99 | confirms are refused when cut off, of another kind, unsuccessful, or without the field asked for, each with its error |
| Mcs.IndicationErrs | src/mcs/domain.rs:114-136 | indications cut off, of another kind, or short of the data they announce |
| ConnectionWire.JoinIsRead | src/mcs/domain.rs:33-69 | a server reads Erect Domain, Attach User and Channel Join requests as they were meant, user and channel included |
| ConnectionWire.DataIsRead | src/mcs/domain.rs:102-111 | and data sent on a channel below 0x4000 bytes |
| SharePdu.BuildShareData | src/pdu.rs:61-72 | 18 bytes around the body; while it fits 16 bits it reads back as a data PDU with its source, share id, second type and body |
| SharePdu.ControlReadsBack | src/pdu.rs:34-57 | type modulo 16, source and body of a share control PDU read back, whatever follows |
| SharePdu.DataReadsBack | src/pdu.rs:61-81 | second type and body of a data PDU read back |
| SharePdu.ShareErrs | src/pdu.rs:44-81 | share headers are refused exactly when cut off or declaring less than themselves or more than there is |
| SlowPath.StackRoundTrip | src/mcs/domain.rs:102-136 | through TPKT, X.224, MCS, share control and share data the same channel, type and body come back exactly below 0x4000; longer PDUs are refused, never misread |
| Demux.Stream.ReadFrameBody | src/tls.rs:167-197 | slow or fast frame after its first byte, errors and bytes left |
| Demux.Stream.ReadFrame | src/tls.rs:143-147 | the next frame of the stream and what is left of it |
| Demux.Stream.Recv | src/tls.rs:263-272 | one TPKT packet off the stream, stripped of its X.224 header |
| Demux.ReadsStop | src/tls.rs:167-197 | both readers stop exactly on a whole packet whose X.224 Data header claims more octets than the packet has; a seven-byte example |
| Demux.Stream.ReadDerTlv | src/tls.rs:210-229 | one DER element off the stream |
| Demux.StreamDemultiplexes | src/tls.rs:143-197 | repeated reads of any concatenation of well-formed frames return exactly those frames in order and leave what follows; each fast frame parses to its updates |
| Demux.FrameIsSelfDelimiting | src/tls.rs:167-197 | a frame is read from its own bytes alone |
| Demux.SendReceive | src/tls.rs:231-240 | what can be sent is received as it was, and exactly the PDUs that fit a packet can be sent |
| Demux.DerElementRead | src/tls.rs:210-229 | an element of any length the encoder writes is taken whole, and nothing after it |
| Demux.EmptyLength | src/tls.rs:210-229 | a length octet 0x80 counts no octets: such an element is taken to be empty |
| Demux.StreamErrs | src/tls.rs:143-197 | streams that end before a frame does, or do not begin with a packet where one is expected |
| VChannel.SplitIntoChunks | src/vchannel.rs:26-50 | the chunking loop gives the recursive list of chunks |
| VChannel.ChunksShape | src/vchannel.rs:26-50 | max(1, ceil(n / 1600)) chunks; the k-th holds its own 1600 bytes, FIRST only on the first, LAST only on the last |
| VChannel.ChunksCrossMcs | src/mcs/domain.rs:102-136 | every chunk of every message crosses the MCS layer unharmed |
| VChannel.Reassembler.Push | src/vchannel.rs:67-92 | one chunk: buffer, expected length and progress flag afterwards, and the message when it is the last |
| VChannel.MessageReassembles | src/vchannel.rs:67-92 | from any prior state a message of any size comes out whole with its last chunk and nothing before |
| VChannel.MessagesReassemble | src/vchannel.rs:67-92 | messages sent one after the other come out in order and complete |
| VChannel.PushErrs | src/vchannel.rs:67-92 | a chunk without header, or one that continues what was never begun, is refused and changes nothing |
| Dvc.IdReadsBack | src/dvc.rs:22-55 | a channel id reads back exactly from the width chosen for it upwards |
| Dvc.DataReadsBack | src/dvc.rs:69-139 | a data PDU parses to its channel and payload for every 32-bit id |
| Dvc.PduReadsBack | src/dvc.rs:69-109 | every PDU reads back at every width that holds its ids; a channel name ends at its zero |
| Dvc.DataIsStandard | src/dvc.rs:132-139 | a data PDU is printed at the narrowest width |
| Dvc.PduErrs | src/dvc.rs:39-109 | PDUs without a header byte or cut off in an id |
| Dvc.DataCrossesChannel | src/dvc.rs:69-139 | from any prior reassembler state the chunks of a data PDU give nothing until the last, then exactly channel and payload |
| Connection.ParseDemandActive | src/caps.rs:292-321 | share id and capability sets, or the error of the first truncated one |
| Connection.BasicSettingsExchange | src/connection.rs:80-108 | Connect Initial sent, the response parsed |
| Connection.JoinAll | src/connection.rs:128-135 | one join per channel, confirmed ids kept for the wanted ones |
| Connection.ChannelConnection | src/connection.rs:111-139 | domain, user, then the joins in order |
| Connection.WaitForDemandActive | src/connection.rs:163-182 | at most sixteen PDUs, skipping others and noticing a multitransport request |
| Connection.SendFinalPdus | src/connection.rs:222-228 | synchronize, cooperate, request control and font list in order, up to the first failing send |
| Connection.Finalization | src/connection.rs:222-245 | four PDUs sent, then at most sixteen received until four data PDUs were seen |
| Connection.Establish | src/connection.rs:61-76 | the whole sequence over a transport agrees with its meaning on values, errors included; what it sends by `ConnectionTrace.SessionIsRead` |
| ConnectionTrace.SessionTrace | src/connection.rs:61-76 | a successful run sent exactly the expected trace with the demanded share id, its joins being read by a server in the expected order; it received at most 2 + joins + 32 times, lists the ids confirmed for the wanted requests, and holds the first multitransport request noticed |
| ConnectionTrace.SessionIsRead | src/connection.rs:61-76 | a server reads everything a successful run sent: the joins of user, I/O, server and message channels in order, then those six PDUs |
| ConnectionTrace.EveryRunFollowsTrace | src/connection.rs:61-76 | in every run, whichever sends and receives fail: the PDUs sent are a beginning of the expected trace for the user, channels and share id that the run's own inbox gave; Client Info waits for every join's confirm, Confirm Active for a Demand Active; receives keep a bound set by how much was sent |
| ConnectionServer.DemandReadsBack | src/caps.rs:292-321 | every Demand Active body reads back to share id and capability sets |
| ConnectionServer.DemandErrs | src/caps.rs:292-321 | bodies cut off in their fixed fields or source, and capability sets cut off or shorter than their header, are refused |
| ConnectionWire.ConfirmIsStandard | src/caps.rs:266-282 | the Confirm Active is, byte for byte, the standard's, with the demanded share id, the number of capability sets and all of them |
| ConnectionWire.ClosingIsRead | src/connection.rs:142-228 | Client Info, Confirm Active, synchronize, cooperate, request control and font list are read as data of the user on channel 1003 |
| ConnectionServer.RequestDetected | src/multitransport.rs:52-66 | a bare multitransport request is found as it was sent |
| ConnectionServer.DetectedExactly | src/multitransport.rs:52-66 | a PDU holds a request exactly if one of the two places for the protocol field has a UDP protocol number |
| ConnectionServer.WrappedRequestDetected | src/multitransport.rs:52-66 | behind a four-byte wrapper it is found exactly if the low half of its id is no UDP protocol number, or wrapper, protocol and cookie repeat its own fields; otherwise the request read at the wrapper is returned |
| ConnectionServer.WrappedRequestMisread | src/multitransport.rs:52-66 | an example: request 1 behind zeros is taken for request 0 |
| ConnectionServer.HonestServerSucceeds | src/connection.rs:61-76 | a server that confirms each join request as it read it and sends fewer than sixteen strays and a Demand Active gets a session exactly if the PDUs after it drain; it has the user, the wanted channels and the share id |
| ConnectionServer.DrainSucceeds | src/connection.rs:230-243 | the drain succeeds exactly if payloads come until four data PDUs have been seen, in any order with others, or sixteen have come |
| ConnectionServer.AnyLongShareCounts | src/connection.rs:236-242 | what the drain counts is any share control PDU with a body of twelve bytes or more, whatever its type |
| ConnectionServer.PrintedServerSucceeds | src/connection.rs:61-76 | such a server: printed confirms, Demand Active and four data PDUs that fit give a session with its user and share id |
| ConnectionServer.ServerChannelsOnly | src/connection.rs:119-135 | the session lists exactly the server's channels if and only if each is neither user nor I/O channel and no other message channel is joined |
| ConnectionServer.OtherChannels | src/connection.rs:119-135 | a network for which the list is another |

## Left out

- Sockets, TLS, certificates, timeouts, polling and the session's pump: the transport is a byte stream or scripted outcomes of sends and receives.
- UDP multitransport beyond detecting the request, and everything in `src/udp_tunnel.rs` and `src/emt.rs`: I/O.
- The inside of MD4, MD5, HMAC, SHA-256, RC4's key schedule and the random generator: functions and keystream are parameters.
- Case folding and UTF-16 conversion of names, and UTF-8 decoding of channel names: strings are bytes, upper-casing is a parameter.
- BER, the GCC conference blocks, Connect Initial, Client Info and the capability bodies: opaque bytes and one opaque parser in the connection sequence.
- Pointer decoding: the two decoders are parameters of the display.
- X.224 connection request and confirm, negotiation, input events, bulk decompression, ZGFX, H.264 and RemoteFX.
- The capabilities and create responses of dynamic channels, caps advertise and frame acknowledge: fixed layouts that would only add easy members.
- NlaExchange.WholeFlow: the password is below 2^31 bytes, because TSCredentials must stay under the 2^32 bytes DER decoding accepts.
- Memory use: a declared length that would allocate too much is not an error in the model.
- Demux.Stream.ReadExact: after a failed read the stream is empty; the real stream's position is then unspecified.
