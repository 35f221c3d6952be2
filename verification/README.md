# Verified models of kyu's decoders, display, input and timing code

A Dafny model of five parts of the kyu operating system, with proofs of what they
are for. Everything is stated for all inputs, all runs or all reachable states.

- **PNG decoding** (`include/stb_image.h`). `Arithmetic`, `Bits`, `CanonicalCode` and `HuffmanTable`
  cover canonical Huffman codes and the nine-bit fast table with its slow path.
  `DeflateFormat` and `DeflateBlocks` define what a DEFLATE stream is (RFC 1951), as an
  encoder independent of the decoder. `InflateFacts` and `Inflate` are the decoder: a bit
  buffer over a zero-extended stream, in-place output that grows, and a proof that it
  inverts the encoder. `DeflateVectors` states the tables of the format in numbers and decodes
  streams given byte by byte. `PngFilter`, `PngImage` and `Adam7` take the inflated bytes to an image,
  and `PngEncode` shows that every image has such bytes.
- **Dirty regions** (`kernel/display.c`). `Rects`, `DirtyRegions` and `Display`: the list of at
  most 64 rectangles, the drawing calls that feed it, and the blit that consumes it.
- **Keyboard** (`drivers/keyboard.c`, `include/spinlock.h`). `KeyboardProtocol` is a state
  machine over any number of CPUs, each with task code, an interrupt handler and an
  interrupt flag; `KeyboardRing` and `KeyboardModifiers` are the sequential parts. IRQ1 is
  entered with interrupts masked (`arch/x86/idt.c` installs an interrupt gate).
- **Image filters** (`include/media_scale.h`). `Pixels`, `Sharpen` and `Scale`.
- **Terminal and timer** (`drivers/tty.c`, `drivers/timer.c`). `Terminal` and `Timer`.

## How the statements are built

State that the source updates in place is a class or an array. Where a method must
recover something that was encoded, the encoded thing is a ghost parameter `want`, and
the contract says what happens if the input carries it; since `want` is arbitrary this is
a statement about all of them. What was actually read comes back as a ghost result, which
gives the other direction.

A definition that a method and its specification both rely on is also tied to something that
does not use it: the numbers of the standard (`DeflateVectors.SentOrder`,
`DeflateVectors.FixedLitCode`, `Adam7.PassesFollowPattern`), the sums and inequalities that the
result must satisfy (`Sharpen.SharpenedAt`, `Scale.ScaledAt`, `PngFilter.UndoneAt`), or input
and output written out (`DeflateVectors.DecodeDynamic`, `PngImage.DecodeGreyPair`).

Unsigned wrap-around is written out where it can happen: unions and merge costs of
rectangles, box sums, Adam7 pass sizes, the usage meter. C division truncates toward zero.

## Where the code and its promises differ

- The comment on the dirty list promises a superset of what changed (`include/display.h:127-133`).
  A mark keeps it exactly when it merges nothing or the two rectangles that it merges have a
  representable bounding box (`DirtyRegions.MarkKeepsExactly`, `DirtyRegions.FoldFitsExactly`);
  otherwise the size wraps (`DirtyRegions.RunCanLoseCoverage`). The compositor clips to the screen first, which avoids it.
- Box sums are uint32. They are exact for every content if and only if a box has at most
  66051 pixels (`Scale.BoxExactness`, `Scale.WhiteFails`).
- A stream that reads past the end of the input is meant to be refused
  (`include/stb_image.h:4332-4336`). The three bytes 0x78 0x01 0x03 are accepted although the
  end-of-block code reaches two bits past them (`Inflate.AcceptsPastEnd`). Whether an
  end-of-block code ends its block is exactly `InflateFacts.EndAccepted`, a test of the buffered bits, the
  end-of-input flag and the input left (`Inflate.ZBuf.BlockStep`). Codes inside the input
  always pass it (`Inflate.ZBuf.EndInside`), so the promise fails exactly where a code that
  reaches past the end passes it.
- Sharpening multiplies in int. It stays in range for every neighbourhood if and only if the
  amount is at most 37153 percent (`Sharpen.SharpFitsExactly`, `Sharpen.DotOverflows`).
- The terminal's comment calls a backspace in column 0 harmless to the scrollback
  (`drivers/tty.c:173-174`). On every screen of at least two rows and columns, "a", newline, backspace
  leaves text that the next repaint removes (`Terminal.BackspaceLosesText`). The exact
  condition for one character is `Terminal.Benign`: after any other character no transcript at
  all agrees with ring, cursor and screen (`Terminal.Tty.PutChar`).

## Model

| member | source | states |
|---|---|---|
| `Inflate.Decode` | include/stb_image.h:4546-4561 | for every list of stored, fixed and dynamic blocks, an input that carries its encoding is accepted if and only if the output fits the doubling buffer, and decodes to exactly the LZ77 expansion; whatever is accepted has a valid header, if one is asked for, and is the encoding of some blocks, with that output |
| `DeflateVectors.DecodeDynamic` | include/stb_image.h:4364-4412 | the 13 bytes 05 C0 81 00 00 00 00 00 90 36 FF 53 08, a dynamic block of one literal, decode to the single byte 65 from any initial buffer |
| `DeflateVectors.DecodeFixed` | include/stb_image.h:4314-4362 | the 7 bytes 73 74 42 86 40 26 00, a fixed block of two literals and two matches with extra bits, decode to 14 bytes of "ABAB.." and "BAB" |
| `DeflateVectors.DecodeStored` | include/stb_image.h:4414-4441 | for every data of up to 65535 bytes: the byte 1, the length, its complement and the data decode to the data |
| `DeflateVectors.ZlibHeaderFields` | include/stb_image.h:4443-4455 | the header test in numbers: more than two bytes, method 8, no preset dictionary, a multiple of 31 |
| `InflateFacts.CapDoubles` | include/stb_image.h:4278-4298 | the capacity at which growing stops is the initial one times a power of two |
| `InflateFacts.CapBound` | include/stb_image.h:4278-4298 | and more than half of the largest unsigned int |
| `Inflate.AcceptsPastEnd` | include/stb_image.h:4332-4338 | an input of three bytes is accepted although its last code reaches two bits past the end |
| `InflateFacts.EveryStreamIsCarried` | include/stb_image.h:4486-4513 | every encodable list of blocks, packed into bytes behind a header and before any further bytes, is such an input, so the theorem above has a partner encoder |
| `Inflate.ZBuf.ParseZlib` | include/stb_image.h:4486-4513 | soundness and completeness of the whole block loop for any mix of block kinds |
| `Inflate.ZBuf.ParseBlocks` | include/stb_image.h:4494-4511 | the loop over blocks: terminates, because a block is read only where input is left, and stops at the final block |
| `Inflate.ZBuf.ParseBlock` | include/stb_image.h:4494-4511 | one block of any kind; at most 31 bits are buffered at every block boundary |
| `Inflate.ZBuf.ParseHuffmanBlock` | include/stb_image.h:4314-4362 | on success exactly the encoding of some items was consumed and their expansion appended; if the input carries the items `want`, success holds if and only if the output fits, and the items are `want`; where an end-of-block code comes first, past the end or not, success holds if and only if that code is accepted, with no items |
| `Inflate.ZBuf.BlockStep` | include/stb_image.h:4317-4360 | one symbol: literal, end of block, match or error; the block ends if and only if an end-of-block code comes next and is accepted, decided by the buffered bits, the end-of-input flag and the input left; one that ends inside the input always is |
| `Inflate.ZBuf.EndInside` | include/stb_image.h:4331-4338 | in every state of the reader a code that ends inside the input is accepted, so only codes that reach past the end are refused |
| `Inflate.ZBuf.PutMatch` | include/stb_image.h:4348-4359 | a match appends the byte-by-byte LZ77 copy, overlapping or not, also through the shortcut for distance 1 and across buffer growth |
| `DeflateFormat.CopyIsPeriodic` | include/stb_image.h:4352-4359 | the copy continues the output with period `dist`, independently of the order of the loop |
| `Inflate.ZBuf.Expand` | include/stb_image.h:4278-4298 | growing keeps the output; failure means the doubled capacity cannot hold it |
| `Inflate.ZBuf.HuffmanDecode` | include/stb_image.h:4248-4276 | fast table plus slow path return the symbol whose canonical code prefixes the window; with 16 bits buffered -1 exactly when no code does, with fewer also when the end of the input has been passed |
| `Inflate.ZBuf.DecodeSlow` | include/stb_image.h:4229-4246 | the slow path selects the matching symbol; its checks on the index and on the stored size cannot fire |
| `Inflate.ZBuf.Receive` | include/stb_image.h:4219-4227 | the next n bits of the zero-extended stream as a number, least significant first |
| `Inflate.ZBuf.FillBits` | include/stb_image.h:4207-4217 | at least 25 bits, always a window of the stream; the test for a corrupt bit buffer cannot fire |
| `Inflate.ZBuf.ComputeHuffmanCodes` | include/stb_image.h:4364-4412 | reads back any header of counts, code-length code and run-length coded lengths, and builds both tables from it |
| `DeflateVectors.SentOrder` | include/stb_image.h:4366-4381 | the length of each code-length symbol is the one sent at its place in the order 16, 17, 18, 0, then 8, 7, 9, 6, .., and 0 if that place was not sent |
| `DeflateVectors.LengthRuns` | include/stb_image.h:4388-4405 | each code-length symbol in numbers: a length, 3 to 6 repeats with 2 bits, 3 to 10 zeros with 3 bits, 11 to 138 zeros with 7 bits |
| `DeflateVectors.FixedLitCode` | include/stb_image.h:4457-4468 | the code of every literal and length symbol of a fixed block, in the four ranges of RFC 1951 section 3.2.6 |
| `DeflateVectors.FixedDistCode` | include/stb_image.h:4469-4472 | every distance symbol of a fixed block is sent as its own five bits |
| `Inflate.ZBuf.ReadLengths` | include/stb_image.h:4384-4408 | the run-length loop reproduces the lengths of any coded list and accepts nothing else |
| `Inflate.ZBuf.ParseUncompressedBlock` | include/stb_image.h:4414-4441 | a stored block gives exactly its payload, whatever was buffered before it; succeeds if and only if the output fits |
| `Inflate.ZBuf.DrainHeader` | include/stb_image.h:4420-4427 | after alignment at most three whole bytes are drained into the four-byte header, in order |
| `Inflate.ZBuf.ParseZlibHeader` | include/stb_image.h:4443-4455 | accepts exactly the headers with method 8, a valid check value, no dictionary and data behind them |
| `InflateFacts.LengthEntry` | include/stb_image.h:4300-4306 | the length table agrees with the recurrence of RFC 1951 section 3.2.5 |
| `InflateFacts.DistEntry` | include/stb_image.h:4308-4312 | the distance table agrees with its recurrence |
| `DeflateFormat.LengthEncodable` | include/stb_image.h:4300-4306 | every length below the base of symbol 285 has a symbol and extra bits |
| `DeflateFormat.DistEncodable` | include/stb_image.h:4308-4312 | every distance has a symbol and extra bits |
| `DeflateBlocks.FixedCodes` | include/stb_image.h:4457-4484 | the fixed code lengths use up the code space exactly, so the fixed tables always build |
| `HuffmanTable.ZHuffman.Build` | include/stb_image.h:4129-4174 | succeeds if and only if the Kraft sum is at most 1, and then fast table, limits and symbol list represent the canonical code, also over the remains of an earlier table |
| `HuffmanTable.ZHuffman.AssignCodes` | include/stb_image.h:4140-4154 | first codes, limits and first symbols of every length, or failure exactly on an over-subscribed code |
| `HuffmanTable.ZHuffman.FillSymbols` | include/stb_image.h:4156-4172 | every symbol is entered where its code says, no entry of another symbol is lost |
| `HuffmanTable.FastEntryMatches` | include/stb_image.h:4268-4274 | a non-zero fast entry is the matching symbol and its length |
| `HuffmanTable.NoFastEntry` | include/stb_image.h:4268-4275 | a zero entry means that only codes longer than 9 bits can match |
| `HuffmanTable.SlowSelects` | include/stb_image.h:4234-4245 | the first limit above the reversed window selects the matching symbol |
| `HuffmanTable.SlowRejects` | include/stb_image.h:4238 | no limit above it means that no code matches |
| `CanonicalCode.PrefixFree` | include/stb_image.h:4129-4174 | no code is a prefix of another |
| `CanonicalCode.CodesAreOrdered` | include/stb_image.h:4143-4154 | codes follow the order of lengths and, within a length, of symbols, without overlap |
| `CanonicalCode.CodesFillInterval` | include/stb_image.h:4144-4154 | codes of length at most s fill exactly the interval below the limit of s |
| `CanonicalCode.OverrunBreaksKraft` | include/stb_image.h:4149-4151 | the failing check implies an over-subscribed code |
| `CanonicalCode.NoOverrunGivesKraft` | include/stb_image.h:4149-4151 | passing the check at length 15 implies the Kraft inequality |
| `Bits.BitReverse16` | include/stb_image.h:4112-4119 | the four mask-and-shift stages reverse 16 bits |
| `Bits.BitReverse` | include/stb_image.h:4121-4127 | reversing 16 bits and shifting reverses the low bits |
| `Adam7.CreateImage` | include/stb_image.h:4866-4909 | for every image, every choice of filters per row, every bit depth and channel count, plain or in seven passes: the output is the image, channel by channel; success if and only if there is enough data and every filter type is known |
| `PngEncode.DecodePng` | include/stb_image.h:5204-5219 | inflating and building the image together: for every image, any blocks, any filters and both ways of storing it, data that carry the image give the image, if and only if the inflated data fit the buffer |
| `PngEncode.EveryImageHasData` | include/stb_image.h:5204-5219 | every image that the format can hold has compressed data that carry it, for every choice of filters |
| `PngEncode.EveryImageIsEncoded` | include/stb_image.h:4866-4909 | every image that the format can hold, with every choice of filters, plain or interlaced, has raw data that carry it |
| `PngEncode.RawEncoded` | include/stb_image.h:4742-4792 | any rows filtered with any types are encoded in their data, behind those types |
| `PngEncode.PackedSample` | include/stb_image.h:4794-4857 | packing samples at any bit depth and reading them gives them back |
| `PngEncode.EveryDataIsEncoded` | include/stb_image.h:4414-4441 | any data have a stream of blocks that stand for them |
| `Adam7.Deinterlace` | include/stb_image.h:4875-4908 | every pixel is written from its own position of its own pass, each pass read from where the ones before it end |
| `Adam7.PassesPartition` | include/stb_image.h:4879-4882 | each pixel belongs to exactly one pass |
| `Adam7.PassesFollowPattern` | include/stb_image.h:4879-4882 | the seven passes are the 8x8 pattern of RFC 2083 section 2.6, repeated |
| `Adam7.ScatterExact` | include/stb_image.h:4893-4900 | position (i, j) of pass p is written to (x, y) if and only if (x, y) lies in pass p at that position: each destination exactly once |
| `Adam7.PassWidthExact` | include/stb_image.h:4885 | the unsigned size formula never underflows and counts exactly the columns of the pass inside the image |
| `Adam7.PassHeightExact` | include/stb_image.h:4886 | the same for rows |
| `Adam7.ScatterPass` | include/stb_image.h:4893-4900 | copying a decoded pass completes it and keeps the passes before it |
| `PngImage.CreateImageRaw` | include/stb_image.h:4701-4864 | succeeds if and only if there is enough data and every filter type is known; then the rows are the unfiltered ones and the output holds their samples |
| `PngImage.DecodeGreyPair` | include/stb_image.h:4773-4790 | the raw bytes 3, 1, 0 of a 2x1 grey image give the pixels 1 and 0: the average rounds down |
| `PngImage.RowIsWholeBytes` | include/stb_image.h:4723 | a row takes the fewest whole bytes that hold its samples |
| `PngImage.NeighboursOnePixelApart` | include/stb_image.h:4713-4740 | the filter distance is one whole pixel from 8 bits on, and one byte below |
| `PngImage.GreyFillsRange` | include/stb_image.h:4796 | at every low bit depth the largest grey sample becomes 255; palette indices are not scaled |
| `PngImage.FieldDigits` | include/stb_image.h:4802-4822 | a sample below 8 bits is a digit of its byte, counted from the most significant end |
| `PngImage.SampleDigits` | include/stb_image.h:4795-4843 | where sample i of a row lies and what it is worth, for each bit depth; 16-bit samples are big-endian |
| `PngImage.AddedAlphaIsLargest` | include/stb_image.h:4678-4697 | an added alpha channel is 255, or 65535 at 16 bits |
| `PngImage.DecodeEncoded` | include/stb_image.h:4742-4858 | filtering any rows with any types and decoding gives back the rows |
| `PngImage.EncodedIsDecoded` | include/stb_image.h:4742-4792 | an image is filtered to the data if and only if the data unfilters to the image |
| `PngImage.DecodedUnique` | include/stb_image.h:4742-4792 | the data determine the rows |
| `PngImage.ExpandRow` | include/stb_image.h:4794-4857 | every channel of every pixel stands at its place for all bit depths, with or without added alpha |
| `PngImage.UnpackLow` | include/stb_image.h:4802-4822 | the shifting register yields the samples of 1, 2 and 4 bits, scaled |
| `PngImage.GreyAlphaInPlace` | include/stb_image.h:4680-4698 | adding alpha in place, backwards, overwrites no sample before it is moved (one channel) |
| `PngImage.ColourAlphaInPlace` | include/stb_image.h:4680-4698 | the same with three channels |
| `PngFilter.UnfilterRow` | include/stb_image.h:4747-4790 | each loop, with the substituted filters of the first row, computes the row that RFC 2083 section 6 defines; for each type number, modulo 256: 0 the raw byte, 1 plus the byte one pixel to the left, 2 plus the byte above, 3 plus half the sum of both rounded down, 4 plus the neighbour nearest to left + above - upper left |
| `PngFilter.AverageRoundsDown` | include/stb_image.h:4773-4790 | the average filter predicts half the sum of left and above, rounded down |
| `PngFilter.PaethNearest` | include/stb_image.h:4662-4673 | the Paeth value is the neighbour nearest to left + above - upper left, with ties in that order, and nothing else is |
| `PngFilter.FilterInverse` | include/stb_image.h:4759-4790 | filtering and unfiltering are inverse relations, for every filter type |
| `PngFilter.UnfilterUnique` | include/stb_image.h:4759-4790 | a row is determined by its filtered form |
| `PngFilter.PaethIsReference` | include/stb_image.h:4662-4673 | the branch-light predictor equals the one of RFC 2083 section 6.6 for all integers |
| `DirtyRegions.RunCovers` | kernel/display.c:194-270 | over every run of marks inside a representable frame: every mark stays covered, every region is non-empty and inside the frame, at most 64 regions |
| `DirtyRegions.MarkKeepsExactly` | kernel/display.c:194-270 | for any list in which no region contains another, a mark keeps everything covered, itself included, if and only if it merges nothing, or merges itself with a region and the bounding box is representable, or folds a pair of which the union or the mark contains each |
| `DirtyRegions.FoldFitsExactly` | kernel/display.c:234-270 | as long as areas fit int64, a folded pair meets that condition if and only if its bounding box is representable |
| `DirtyRegions.MarkedSomehow` | kernel/display.c:194-270 | every mark merges nothing, one region with the mark, or one pair of regions |
| `DirtyRegions.MergeIsMark` | kernel/display.c:194-270 | each of these is a mark |
| `DirtyRegions.StepsCover` | kernel/display.c:194-270 | over every run of representable marks without any frame, as long as every merge fits, every mark so far is covered, by non-empty representable regions |
| `DirtyRegions.FittingMergeSound` | kernel/display.c:194-270 | a merge that fits leaves only non-empty representable regions |
| `DirtyRegions.RunCanLoseCoverage` | kernel/display.c:119-133 | outside such a frame the superset promise fails: two marks with a bounding box of 2^32 columns or more |
| `Rects.UnionIsLeast` | kernel/display.c:119-133 | the union contains both rectangles if and only if their span is representable, and is then the least such rectangle |
| `Rects.UnionCanWrap` | kernel/display.c:119-133 | two pixels 2^32 columns apart merge into nothing |
| `DirtyRegions.RunAntichain` | kernel/display.c:194-270 | over every run whose areas fit int64 no listed region contains another |
| `Rects.ContainedCostsNothing` | kernel/display.c:164-168 | a mark that contains a listed region has negative merge cost |
| `Rects.InflationExact` | kernel/display.c:154-168 | the int64 cost is the true one when areas fit |
| `DirtyRegions.MarkedArea` | kernel/display.c:207-270 | one mark adds at most its area, and on the full list at most the cheapest merge among all pairs of the 65 rectangles on top |
| `DirtyRegions.MarkShape` | kernel/display.c:194-233 | in numbers: a mark inside a region changes nothing; one that shares a pixel with a region and whose bounding box is no larger than both is merged and the list does not grow; any other is listed while there is room and only regions inside it go |
| `DirtyRegions.MarkedKeeps` | kernel/display.c:194-270 | inside a representable frame one mark loses nothing that was covered, covers the mark and stays in the frame |
| `DirtyRegions.DirtyRegionList.Mark` | kernel/display.c:194-270 | the in-place update takes one of the four cases with the choice that case prescribes |
| `DirtyRegions.DirtyRegionList.DropContained` | kernel/display.c:179-186 | in-place compaction keeps exactly the regions not inside the cover |
| `DirtyRegions.DirtyRegionList.CheapestMerge` | kernel/display.c:207-214 | the overlapping region of least cost, or none exactly when nothing overlaps |
| `DirtyRegions.DirtyRegionList.CheapestGrowth` | kernel/display.c:238-243 | the region of least growth |
| `DirtyRegions.DirtyRegionList.CheapestPair` | kernel/display.c:244-251 | the pair of least merge cost |
| `DirtyRegions.DirtyRegionList.FindCovering` | kernel/display.c:197-200 | found if and only if some region contains the mark |
| `Rects.ContainsIsInclusion` | kernel/display.c:171-177 | containment is inclusion of pixels |
| `Rects.IntersectionIsCommonPixels` | kernel/display.c:103-117 | the intersection has exactly the common pixels |
| `Display.DrawAndPresent` | kernel/display.c:80-101 | from equal buffers, after any drawing calls on a tracked source, rendering each listed region leaves every pixel of source and target in the colour of the last call that hit it, and padding untouched |
| `Display.Present` | kernel/gfx/compositor.c:912-923 | the present loop brings the target up to date and leaves padding alone |
| `Display.DrawOne` | kernel/display.c:80-101 | each drawing call sets exactly the visible pixels it asks for and keeps every differing pixel inside a listed region |
| `Display.ViewportRender` | kernel/display.c:283-311 | clipping once per call equals the per-pixel definition, for any bounds and scroll, and leaves padding untouched |
| `Display.DisplayBuffer.FillRect` | kernel/display.c:90-101 | exactly the pixels of the clipped rectangle change, and that rectangle is marked |
| `Display.DisplayBuffer.WritePixel` | kernel/display.c:80-88 | exactly one visible pixel changes and is marked |
| `Display.BlitRegion` | kernel/gfx/compositor.c:89-96 | the blit of a region copies exactly its visible pixels |
| `KeyboardProtocol.MutualExclusion` | include/spinlock.h:24-79 | in every interleaving of any number of CPUs at most one is inside, a waiting CPU never holds the lock itself, and a holder has interrupts masked |
| `KeyboardProtocol.DeliveryIsFifo` | drivers/keyboard.c:184-230 | accepted bytes are the delivered ones followed by the queue; a byte is dropped only when 255 are queued |
| `KeyboardProtocol.ReadIsSlice` | drivers/keyboard.c:210-220 | a read returns consecutive bytes of the accepted stream, at most as many as asked, and fewer only when the ring is empty |
| `KeyboardProtocol.LockMakesProgress` | include/spinlock.h:24-43 | no deadlock: a holder can always move, and a free lock goes to whoever tries next |
| `KeyboardProtocol.RestoreReturnsFlag` | include/spinlock.h:70-79 | over every run: when a read or flush that began in a reachable state has returned, the interrupt flag of its CPU is what it was when the call began |
| `KeyboardProtocol.ReadCall` | drivers/keyboard.c:210-220 | over every run: when a call that asked for n bytes releases the lock it has the last bytes delivered, at most n, and fewer only when everything accepted has been delivered |
| `KeyboardProtocol.FlushCall` | drivers/keyboard.c:225-230 | over every run: when a flush releases the lock the ring is empty |
| `KeyboardProtocol.InterruptQueues` | drivers/keyboard.c:184-190 | over every run: when the handler moves the head, the character of its interrupt joins the end of the queue and of the accepted stream |
| `KeyboardProtocol.InterruptResumes` | drivers/keyboard.c:184-206 | over every run: the handler returns to the state that it interrupted, interrupt flag included |
| `KeyboardProtocol.ReachableInv` | drivers/keyboard.c:184-230 | the protocol invariant holds in every reachable state |
| `KeyboardRing.KbdBuffer.Push` | drivers/keyboard.c:184-190 | appends unless 255 bytes are queued |
| `KeyboardRing.KbdBuffer.Read` | drivers/keyboard.c:210-220 | removes the oldest bytes, fewer than asked only if the ring runs empty |
| `KeyboardRing.KbdBuffer.Flush` | drivers/keyboard.c:225-230 | empties the ring |
| `KeyboardRing.PushIsAppend` | drivers/keyboard.c:185-189 | storing and advancing the head appends to the queue |
| `KeyboardRing.PopIsTail` | drivers/keyboard.c:213-217 | advancing the tail removes the oldest byte |
| `KeyboardRing.FullIs255` | drivers/keyboard.c:185-186 | the test refuses a byte exactly when 255 are queued |
| `KeyboardModifiers.ModifiersAreHistory` | drivers/keyboard.c:108-144 | after any byte stream each modifier bit is set if and only if the last make or break of one of its sides was a make, and Caps is the parity of presses that are not repeats |
| `KeyboardModifiers.HeldIsHistory` | drivers/keyboard.c:97-138 | a key is held if and only if its last event was a make, E0 prefixes told apart |
| `KeyboardModifiers.Keyboard.Scancode` | drivers/keyboard.c:97-144 | the handler's update of held keys, modifier bits and prefix flag |
| `KeyboardModifiers.ScancodeTable` | drivers/keyboard.c:97-135 | the make and break byte of each of the seven modifier keys, and whether the prefix E0 precedes it |
| `Sharpen.SharpenInPlace` | include/media_scale.h:94-162 | for every size: the result in place is the out-of-place unsharp mask of the original image with replicated edges; against the sums over the nine original pixels, alpha and each premultiplied colour move away from the mean by the amount, to within one rounding and up to the limits; nothing changes on degenerate arguments |
| `Sharpen.SharpIsSharpened` | include/media_scale.h:131-152 | new alpha is at least the old one where that is at least the mean, at most it otherwise; unless it is 0 or 255, 100 times the change is the amount times the difference from the mean, to within 100; the same for each premultiplied colour before it is divided by the new alpha |
| `Sharpen.AroundIsNine` | include/media_scale.h:114-129 | the sums are over the pixel and its eight neighbours in the original image, edges repeated |
| `Sharpen.WhiteStays` | include/media_scale.h:131-152 | a white opaque pixel stays white, whatever surrounds it |
| `Sharpen.SharpenDot` | include/media_scale.h:94-162 | a white pixel in a transparent 3x3 image, sharpened by 100 percent, stays white |
| `Sharpen.SharpenRow` | include/media_scale.h:109-150 | a row is sharpened from the ring alone, which holds original rows y-1, y and y+1 |
| `Sharpen.SharpChannels` | include/media_scale.h:128-149 | each channel stays in 0..255, so no packed byte carries into its neighbour |
| `Sharpen.UniformKept` | include/media_scale.h:128-149 | a pixel in a uniform neighbourhood is unchanged if and only if it is visible or zero; an invisible one becomes 0 |
| `Sharpen.SharpFitsExactly` | include/media_scale.h:116-143 | no neighbourhood of a pixel makes the signed arithmetic overflow if and only if the amount is at most 37153 percent |
| `Sharpen.DotOverflows` | include/media_scale.h:131-143 | above that, a white pixel among transparent ones overflows |
| `Sharpen.SumsFitUint` | include/media_scale.h:116-127 | the unsigned sums never wrap |
| `Scale.ScaleRgba` | include/media_scale.h:32-74 | for each destination pixel, with the source pixels it takes in given by inequalities on the products of coordinates and sizes: when neither axis shrinks it takes in exactly one and equals it; otherwise, up to 66051 of them, its alpha is their mean and each colour their mean weighted by alpha, rounded down, and it is 0 when none is visible; all reads stay in the source, also when one axis grows and the other shrinks |
| `Scale.TakesIsBox` | include/media_scale.h:36-51 | the source columns of a destination column in inequalities: on a shrinking axis those that end within it, otherwise the one it begins in |
| `Scale.TakenIsBox` | include/media_scale.h:44-64 | the box that the loops sum over is the list of all source pixels that satisfy those inequalities |
| `Scale.ShrinkPair` | include/media_scale.h:32-74 | opaque black and invisible white shrink to black at alpha 127 |
| `Scale.PixelsPartition` | include/media_scale.h:44-51 | when both axes shrink every source pixel lies in exactly one box, and is taken in by exactly one destination pixel |
| `Scale.BoxInside` | include/media_scale.h:44-51 | boxes are non-empty and inside the source on any axis |
| `Scale.NearestOnto` | include/media_scale.h:36-42 | when an axis grows every source column is shown |
| `Scale.SameSizeIsCopy` | include/media_scale.h:36-42 | scaling to the same size copies |
| `Scale.BoxExactness` | include/media_scale.h:52-71 | the uint32 sums give the exact alpha-weighted mean for every box content if and only if the box has at most 66051 pixels |
| `Scale.WhiteFails` | include/media_scale.h:52-71 | a larger white box does not come out white |
| `Scale.MeanBetween` | include/media_scale.h:63-71 | alpha lies between the extremes of the box, each colour between those of its visible pixels |
| `Scale.MeanChannels` | include/media_scale.h:63-71 | its bytes are the channel means, without carries |
| `Scale.ScaledBetween` | include/media_scale.h:43-72 | so every pixel of a downscaled image lies between the extremes of the visible pixels of its box |
| `Scale.FitBox` | include/media_scale.h:167-178 | at least 1x1, inside box and source, unchanged if and only if the source fits, otherwise touching the box, with the aspect ratio kept to within one pixel in every case |
| `Terminal.Tty.Write` | drivers/tty.c:210-219 | after any run of benign characters the screen is the window of the run's transcript at the cursor, and the ring holds its last 512 lines |
| `Terminal.Tty.RenderView` | drivers/tty.c:106-126 | repainting from the ring shows the window of the transcript, never a slot taken over by a newer line; repainting a drawn screen changes nothing |
| `Terminal.Tty.ScrollView` | drivers/tty.c:128-147 | any request shows exactly the window that starts at the line asked for, but no further up than the oldest of the last 512 lines and no further down than the live view |
| `Terminal.Tty.PutChar` | drivers/tty.c:156-196 | a character leaves some transcript in agreement with ring, cursor and screen if and only if it is benign; then the transcript is the fed one and the view is live; byte 10 starts a new line, byte 8 removes the last character of a line that has one, any other but 0 is added to a line with room |
| `Terminal.BackspaceLosesText` | drivers/tty.c:172-178 | a run after which a repaint removes text from the screen, on every screen of at least two rows and columns |
| `Terminal.Tty.Newline` | drivers/tty.c:149-154 | a new line takes the slot 512 lines back, scrolls only at the bottom, and keeps the agreement |
| `Terminal.Tty.ScrollUp` | drivers/tty.c:88-104 | moving the rows up in place shows the window one line further down |
| `Terminal.Tty.Clear` | drivers/tty.c:198-208 | an empty transcript, in agreement |
| `Timer.LagBounded` | drivers/timer.c:161-194 | over every run of ticks and rate requests the clock never runs ahead of the exact time and lags by less than 1 ms for each rate it has run at |
| `Timer.SegmentExact` | drivers/timer.c:185-194 | n ticks after a rate was set the clock has advanced by 1000 n / hz, rounded down |
| `Timer.Monotone` | drivers/timer.c:185-194 | the clock never goes back |
| `Timer.PointsSpaced` | drivers/timer.c:237-249 | over every run successive scheduling points are 20 to 35 ms apart |
| `Timer.WidestGap` | drivers/timer.c:237-249 | a run with a gap of 35 ms |
| `Timer.NarrowestGap` | drivers/timer.c:237-249 | a run with a gap of 20 ms |
| `Timer.UsageInRange` | drivers/timer.c:211-223 | over every run the reported usage is in 0..100 and idle ticks never exceed the ticks counted |
| `Timer.UsageOfSecond` | drivers/timer.c:211-222 | over a whole second of ticks the usage is 100 less the percentage of ticks that found the yield counter changed |
| `Timer.Driver.Handle` | drivers/timer.c:205-250 | the handler does one tick of the run and calls the scheduler exactly at its scheduling points |
| `Timer.Driver.SetRefreshRate` | drivers/timer.c:161-173 | accepts 60, 100 and 144 only, and restarts remainder and meter |

## Left out

- Inflate.Decode: requires a non-empty initial buffer, because the doubling loop of the source never ends from size 0; allocation failure is not modelled, and it says nothing about which error is reported; streams that end past the input are decided for each code, not for the whole stream.
- Inflate.ZBuf.Expand: a failing reallocation is not modelled.
- DirtyRegions.RunCovers: one direction only for whole runs, because a region that one mark loses may be covered again by a later one; the exact condition is stated for each mark.
- PngImage.CreateImageRaw: allocation failure and the refusals of sizes that overflow int are not modelled; 16-bit output is a sequence of samples, not of bytes in machine order.
- Adam7.CreateImage: the same, and it takes the sizes that the header check lets through.
- PngEncode.DecodePng: the size guess is a parameter; chunks and transparency are not modelled.
- Scale.ScaleRgba: products of sizes are exact integers, so sizes whose product exceeds int32 are not modelled. What a box of more than 66051 pixels gives, with sums that may wrap, is stated through its formula only (`Scale.BoxValue`).
- Sharpen.SharpenInPlace: the wrapped result of a signed overflow, possible only for amounts above 37153 percent, is not modelled.
- Terminal.Tty.Write: one direction only for whole runs, because text that is lost may scroll away later; the exact condition is stated for each character.
- Terminal.Tty.PutChar: the screen is a grid of character cells instead of pixels, of up to 512 rows and 256 columns, and line numbers do not wrap.
- Timer.LagBounded: the clock does not wrap at 2^64 ms.
- KeyboardProtocol.DeliveryIsFifo: the steps are atomic memory operations in one order; weaker memory ordering is not modelled.
- Fairness of the spinlock: a CPU may wait for ever while others take turns.
- PNG chunks, palettes, colour-key transparency and every other image format of `include/stb_image.h`.
- Key translation, window-manager routing and events in `drivers/keyboard.c`.
- Glyphs, colours, cursor and serial output in `drivers/tty.c`; callbacks, sleep queue and PIT programming in `drivers/timer.c`.
- Buffer creation and destruction in `kernel/display.c`; the rest of the compositor.
- `spinlock_try_lock` and its irqsave form, which none of the modelled code uses.
- All other drivers, file systems, networking and applications, which would add members but no harder claims.
