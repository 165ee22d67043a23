# AppleBridge: a verified model of its codecs, its daemon link and its run monitors

AppleBridge drives a classic Macintosh (real or emulated) from a modern host. A daemon on the guest answers commands
and captures the screen; a host server keeps one persistent link to it; clients reach the host server over a local
control port. This project models the parts of it that must be right byte for byte or over whole runs, and proves what
they promise.

* **Screenshots.** `PackBits`, `RowCodec`, `Predictor`, `Delta`, `DeltaEncoder`, `DeltaMeaning`, `XorFrames` are the row
  codecs of both sides, and `RowFormat` says what their bytes are. `Daemon` and `DaemonProcess` are the daemon's capture,
  `DaemonMeaning` what it carries, `VerbText` the request as text. `ScreenshotHost` is the host's retained
  frame, and `ScreenshotSystem` runs the two together: captures of the whole screen and of regions, lost and cut
  replies, new links, daemon restarts. Every picture that the host returns is what the daemon captured;
  `ScreenshotRegions` says for which requests that is the rectangle that was asked for, `StatusFrame` how the
  exchange reads a refusal, and `ScreenshotFallback` what a daemon without the verb makes the host do.
* **PNG.** `PngSpec`, `PngWriter`, `PngRefines`: the indexed writer, which copies whole scanlines, against the
  truecolor writer, which takes every pixel by itself; `PngColours`: what a pixel's colour is, bit by bit.
* **LZSS.** `LzssFormat` is the format and its reference decoder (4096-byte ring, matches of 3 to 18 bytes), `LzssTree`
  the binary trees kept in three arrays, `LzssKeys` and `LzssOrder` their search order, `LzssSearch` what a search has
  seen, `LzssWindow` the ring over the input, `LzssGreedy` the choice of the longest match, `LzssEncoder` the encoder.
  `LzssStandard` is a decoder with numbers of its own, which reads what the encoder writes.
* **The daemon link.** `FrameSpec` and `FrameCutting` are the length-framed reader over arbitrary recv() chunks,
  `Drain` the realignment after an abandoned read, `LateBytes` the late bytes that it takes or misses, `HostLink` the
  server object, `ClosedReads` reading from a peer that closes, `LinkRuns` whole runs of a link, `LinkMistakes` the
  runs on which a late reply is taken for the next one, `LinkReopens` what opening a serial line again does to its
  commands.
* **The client's reading.** `ReplySpec`, `ReplyMeaning`, `ReplyNotes`: lines, counted fields, and the NOTES field.
* **MacBinary II.** `Crc`, `MacBinary`, `MacBinaryProofs`, and `MacBinaryFormat`, where everything stands in an image.
* **Run monitors.** `HangJudge` decides when an emulator is killed; `RepeatWatch` and `LoopMonitors` watch a trace of tool
  calls; `Score` and `ScoreTables` evaluate such traces afterwards, `ScoreMeaning` says what their numbers count.
* **Two byte algorithms.** `MarkerSearch` and `PrefsEdit`.

`Bytes`, `Bits`, `Number` and `Protocol` hold what the others share: slices, exclusive or on integers, decimal numbers,
the tags of the text protocol.

## How it is modelled

Code that changes things step by step is a method with loops or a class; each is proved against a function or predicate
that says what it computes, and the results about whole runs are lemmas about those. I/O is input: a socket is the list
of chunks it will deliver, a clock is a sequence of ticks, a screen is a parameter of each capture. Errors and
exceptions are result values. The toolbox's PackBits is any function whose output is a PackBits encoding of the row
without a trailing no-op (section 9 of TIFF 6.0), such as literal packets (`RowCodec.LiteralPacker`).
Each pass of a drain looks into the socket and then reads the clock, any time up to `lag` later. The daemon's
compilers are MrC and SC (mac/Makefile:5, mac/Makefile.68k:6), whose int has 32 bits: `rx + rw` of two shorts is exact.

A function that a method is proved against says what the code computes. Beside it stands what that means, in terms that
do not use the function: bytes, bits, positions, or the observations and records of a run (`…Means` and the modules
`…Meaning`, `…Format`, `…Colours`).

Where the C compilers of the classic Mac exchange CR and LF, the daemon's line ends may be either; the frame results
hold for both.

## What turned out different from what the code's comments say

* A whole-screen capture that is not a delta is packed with the width of its pixels and unpacked with `rowBytes`
  (mac/src/screenshot.c:269-349 against host/host_server.py:1727). It decodes exactly when the screen's rows carry no
  padding: `ScreenshotSystem.DeliveredExactly`.
* The reader takes the other half of a CR LF pair along when it has arrived, so a reply whose payload or error text
  starts with that half depends on how it is cut: `FrameCutting.CuttingIff`.
* The reader drops the last CR of a frame, so `with_notes` leaves a relayed reply alone unless its error text ends with
  CR: `ReplyNotes.RelayedNotes`.
* A drain that reports the link realigned may have left late bytes behind. It has taken all of them, whatever its
  clock, if and only if no late byte comes behind a gap: more than RESYNC_QUIET (less the lag of a pass) after the start
  of the drain and after the late byte before it, which itself came within RESYNC_BUDGET: `LateBytes.DrainEmptiesIff`,
  and `LateBytes.GapAtOnce` for a drain whose passes take no time.
  Every gap misleads the host, from the start of a link on: `LinkMistakes.GapsMislead`. Without gaps every reply is its
  own: `LinkRuns.EveryReplyIsItsOwn`.
* Opening a serial line again discards what has landed (host/host_server.py:439-443), but not what is still to come. Its
  commands then get their own replies if and only if the link still has the note of its desync or no byte comes after
  the reopening: `LinkReopens.ReopenIff`. A drain that gives up clears the note, and `LinkReopens.ReopenMisleads` is the
  run on which the rest of the late reply then answers the next command.
* The replies that the daemon writes out by hand do not always declare the length of their text, and some have a blank
  line behind STDOUT:0. With the blank line both reply readers accept any length that the daemon declares:
  `FrameCutting.RejectionCutting`, `ReplyMeaning.RefusalMeans`. Without it (mac/src/main.c:4757) the framed reader accepts
  exactly the lengths from 1 to that of the text: `FrameCutting.FailureIff`, `ReplyMeaning.FailureMeans`.
* The screenshot exchange has a third reader, for which the same condition holds with and without the blank line:
  `StatusFrame.SwallowIff`. The daemon's refusal of a capture declares 18 for a text of 17 characters
  (mac/src/main.c:2471), so the reader waits for a line that never comes, and the link is dropped:
  `ScreenshotSystem.RefusalIsLost`, `RefusedDrops`. The rejection of an unknown verb declares one too few, and is read as
  intended: `ScreenshotSystem.InvalidCommandIsTold`.
* Without a noted desync the drain has no deadline: it ends at the first poll that finds no data.
* A header byte of a MacBinary image is checked unless it is 126 or 127, or it is the version byte set below 129:
  `MacBinaryProofs.ByteChange`.
* Regions: the host sends the numbers as they are, the daemon's digit scan stops at a minus sign and keeps 16 bits
  (mac/src/main.c:2473-2477). A request with a negative coordinate, or with a size such as 0x8000, yields the whole
  screen: `ScreenshotRegions.NegativeIsTheScreen`, `LostSizeIsTheScreen`. `ScreenshotRegions.HonouredIff` is the exact
  condition for the daemon to capture what was meant.
* `apply_delta` raises only ValueError for a run outside the screen, and its caller catches no other exception. A
  `row_bytes` of 0 raises ZeroDivisionError, and a run that is no whole number of rows raises OverflowError unless its
  first extra bytes are zero: `Delta.MixedRun`. No run of the two parties together gets there: `ScreenshotSystem.StepSafe`.

## Model

| member | source | states |
|---|---|---|
| PackBits.UnpackBits | host/screenshot_decode.py:130-160 | the loop gives exactly what the recursive reading of packets gives, errors included |
| PackBits.UnpackExact | host/screenshot_decode.py:130-160 | unpacking succeeds if and only if the bytes read are packets that stand for exactly the expected row |
| PackBits.PackedUnique | host/screenshot_decode.py:130-160 | packed bytes without a trailing no-op stand for one row only |
| PackBits.UnpackPackedRow | host/bench/fbbench.c:110 | whatever PackBits encoding of a row is given, unpacking returns the row and its end |
| RowCodec.UnpackRows | host/screenshot_decode.py:162-180 | the loop gives the rows behind their length prefixes, or the first error |
| RowCodec.UnpackedExact | host/screenshot_decode.py:162-180 | it succeeds if and only if the payload is cut into rows that each decode to row_bytes with nothing left over in their length |
| RowFormat.Unpack | host/screenshot_decode.py:138-157 | control bytes up to 127 copy one more byte than they say, from 129 on they repeat 257 less themselves, 128 does nothing |
| RowFormat.OneRowMeans | host/screenshot_decode.py:167-178 | one row stands behind two length bytes, the high one first, and must take exactly that many |
| RowCodec.PackRows | host/bench/fbbench.c:103-117 | what is written is every row packed behind its two-byte length |
| RowCodec.LiteralPacker | host/bench/fbbench.c:110 | packing by literal packets of 128 bytes is a packer as the toolbox's is assumed to be |
| RowCodec.PackedRoundTrip | host/bench/fbbench.c:103-117 | unpacking packed rows returns the frame and ends with the payload |
| Predictor.UpPredict | host/bench/fbbench.c:119-129 | the output is the frame with each byte combined with the one above |
| RowFormat.UpBits | host/bench/fbbench.c:119-129 | the first row as it is; every other byte has the bits in which it differs from the byte above |
| Predictor.UndoUp | host/screenshot_decode.py:226-234 | undoing row by row gives the frame whose predicted form the data is |
| Predictor.UndoneUp | host/bench/fbbench.c:119-129 | prediction loses nothing |
| Predictor.DecodeRows | host/screenshot_decode.py:236-247 | encodings 0, 1 and 3 as the decoding function says, errors included |
| Predictor.RoundTrip | host/screenshot_decode.py:236-247 | a frame encoded with 0, 1 or 3 decodes to itself |
| XorFrames.XorPrev | host/bench/fbbench.c:131-138 | the words of both frames are combined bit by bit; a rest of fewer than four bytes is untouched |
| XorFrames.XorUndone | host/bench/fbbench.c:131-138 | combining the difference with the old frame gives the new one |
| RowFormat.XorBits | host/screenshot_decode.py:220-222 | a bit of an exclusive or is set exactly when it is set in one of the two |
| Bits.IntegerXor | host/screenshot_decode.py:220-222 | exclusive or of big-endian integers is exclusive or byte by byte |
| Delta.ParseDelta | host/screenshot_decode.py:182-204 | the loop gives the runs of the payload, packed or not, or the first error |
| Delta.RawRoundTrip | host/screenshot_decode.py:197-201 | runs of whole rows written without packing parse to themselves |
| Delta.ApplyDelta | host/screenshot_decode.py:206-223 | for any arguments, the frame or the exception of the first faulty run: ZeroDivisionError, ValueError or OverflowError |
| RowFormat.RunHeader | host/screenshot_decode.py:189-202 | a run is read behind its first row and its row count, two bytes each, the high one first |
| RowFormat.DeltaBits | host/screenshot_decode.py:206-223 | a run turns exactly the bits that it has set, in the rows from its first one on |
| Delta.OutcomeOfWhole | host/screenshot_decode.py:206-223 | for runs of whole rows, every byte is the old one combined with all that the runs deliver for it; ValueError exactly when a run leaves the screen |
| Delta.MixedRun | host/screenshot_decode.py:219-222 | extra bytes in front of the rows raise OverflowError unless they are zero, and then they change nothing |
| Delta.Untouched | host/screenshot_decode.py:206-223 | a byte outside every run keeps its value |
| Delta.OrderIrrelevant | host/screenshot_decode.py:206-223 | runs in any order give the same frame, even when they overlap |
| Delta.AppliedTwice | host/screenshot_decode.py:206-223 | applying the same runs again undoes them |
| DeltaEncoder.EmitDelta | mac/src/screenshot.c:302-333 | the bytes written are the delta payload: each maximal run of changed rows behind its start and count |
| DeltaEncoder.RowsDiffer | mac/src/screenshot.c:181-193 | true if and only if the rows differ |
| DeltaMeaning.DeltaRoundTrip | mac/src/screenshot.c:302-333 | the host's parse and apply turn the old frame and the daemon's delta into the new frame |
| DeltaMeaning.DeltaCarriesChanges | mac/src/screenshot.c:181-193 | what the daemon sends are the changed rows and no others, in runs as long as they can be |
| DaemonMeaning.PixelBytes | mac/src/screenshot.c:269-279 | byte j of row k of a rectangle is the screen's, at its row and from its first pixel on |
| DaemonMeaning.EncodingMeans | mac/src/screenshot.c:281-291 | which flags and which kept frame lead to which encoding |
| DaemonMeaning.CaptureMeans | mac/src/screenshot.c:215-366 | when a capture is refused, what it says of the screen, and what is kept: a whole screen, as the next generation |
| VerbText.Scan | mac/src/main.c:2473-2477 | the loops give the six numbers of the text, 0 for those behind the place where the scan stops |
| VerbText.ReadsBack | host/host_server.py:1601 | of what the host prints, the daemon reads the same request, cut to 16 bits, up to the first minus sign |
| Daemon.ResolvedFits | mac/src/screenshot.c:256-267 | a resolved rectangle lies on the screen and is not empty |
| Daemon.CropFits | mac/src/screenshot.c:269-279 | the bytes taken for a rectangle lie inside the frame |
| DaemonProcess.EmitRaw | mac/src/screenshot.c:345-349 | what is written is the rectangle's rows |
| DaemonProcess.EmitPacked | mac/src/screenshot.c:334-349 | what is written is the packed, and with a scratch row the predicted, rows of the rectangle |
| DaemonProcess.Process.CaptureScreenshot2 | mac/src/screenshot.c:215-366 | reply and retained frame are those of the capture function; a region retains nothing, a whole screen advances the generation |
| ScreenshotHost.ShotState.BeginShot | host/host_server.py:1566-1572 | a new link forgets the retained frame |
| ScreenshotHost.ShotState.HandleAnswer | host/host_server.py:1661-1747 | the shot and the retained frame are those of the handling function; a delta without its base ends the link |
| DaemonMeaning.RequestMeans | host/host_server.py:1587-1601 | packed and predicted rows are asked for; for the whole screen and with a base, a delta against its generation |
| DaemonMeaning.LinkEndsIff | host/host_server.py:1661-1725 | an answer ends the link if and only if it is lost, of another kind, declares too much, or is a delta without its base |
| DaemonMeaning.HostLearns | host/host_server.py:1661-1747 | a believed header means that the verb is known, and a whole screen with a generation is the base from then on |
| ScreenshotSystem.StepSafe | host/host_server.py:1583-1747 | every step keeps "a host base with the daemon's generation is the daemon's retained frame", and a returned shot shows what was captured |
| ScreenshotSystem.EveryShotIsRight | host/host_server.py:1542-1747 | on every run no request ends with an exception, and every returned shot shows the captured rectangle |
| ScreenshotSystem.WholeScreenIsTheScreen | host/host_server.py:1542-1747 | on every run, a whole-screen shot is the screen, whichever encoding carried it |
| ScreenshotSystem.RefusalIsLost | mac/src/main.c:2471 | from any cutting of the daemon's refusal the reader waits in vain, and the link is dropped |
| ScreenshotSystem.RefusedDrops | host/host_server.py:1661-1700 | a refused capture yields no shot and costs the link |
| ScreenshotSystem.InvalidCommandIsTold | mac/src/main.c:4857 | from any cutting, the rejection of the verb is taken whole, and is read as one |
| ScreenshotFallback.StatusMeans | host/host_server.py:1664-1671 | a status text counts against the verb if and only if "Invalid command" stands in it, and none costs the link or the base |
| ScreenshotFallback.BadStatusMeans | host/host_server.py:1664-1705 | a status frame out of form is passed over, one that never ends costs the link |
| ScreenshotFallback.UnreadMeans | host/host_server.py:1689-1705 | a lost reply costs the link, an unreadable one nothing; neither yields a picture |
| ScreenshotFallback.RejectionFallsBack | host/host_server.py:1664-1671 | after the rejection, from any cutting, the verb is known not to work, and nothing else has changed |
| ScreenshotFallback.FallsBack | host/host_server.py:1566-1579 | a daemon without the verb is asked once, and in the same request asked the old way |
| ScreenshotFallback.NeverAgainOnThisLink | host/host_server.py:1566-1579 | after that, whatever happens, the verb is not sent again until the daemon dials anew |
| ScreenshotFallback.NewLinkAsks | host/host_server.py:1566-1572 | on a new link it is sent again |
| ScreenshotFallback.SpeakersAreAsked | host/host_server.py:1566-1579 | on every run, a daemon that knows the verb is never asked the old way |
| StatusFrame.ShotReader.SwallowStatusFrame | host/host_server.py:1636-1659 | the loop gives what the reading of the lines gives, errors included |
| StatusFrame.EightLines | host/host_server.py:1644-1653 | the error header must be among the first eight lines |
| StatusFrame.SwallowedAlike | host/host_server.py:1636-1659 | the same bytes, however they are cut, end alike |
| StatusFrame.ResultSwallowed | host/host_server.py:1636-1659 | every result is taken whole, and nothing behind it, whatever its texts start with |
| StatusFrame.SwallowIff | host/host_server.py:1636-1659 | a hand-written reply is taken whole from any cutting if and only if it declares a length from 1 to that of its text |
| ScreenshotRegions.HonouredIff | mac/src/main.c:2473-2477 | what the daemon captures is what the region means if and only if a condition on its four numbers and the screen holds |
| ScreenshotRegions.SmallRegionsHonoured | mac/src/screenshot.c:256-267 | it holds for all numbers from 0, sizes from 1, below 0x8000 |
| ScreenshotRegions.HonouredIsShown | host/host_server.py:1542-1747 | on every run, the shot of an honoured request shows the part of the screen that the region covers |
| ScreenshotRegions.RegionIsTheRegion | host/host_server.py:1542-1747 | on every run, a region on the screen yields that rectangle, full rows below eight bits per pixel, or nothing |
| ScreenshotRegions.NegativeIsTheScreen | mac/src/main.c:2473-2477 | on every run, a request with a negative coordinate yields the whole screen, or nothing |
| ScreenshotRegions.LostSizeIsTheScreen | mac/src/screenshot.c:256-259 | so does one with a size that 16 bits make zero or negative |
| ScreenshotSystem.DeliveredExactly | host/host_server.py:1713-1732 | a delivered reply yields a shot if and only if it is a true region or the rows carry no padding |
| ScreenshotSystem.PaddedFails | host/host_server.py:1727 | a padded whole screen that is not a delta does not decode |
| ScreenshotRegions.PaddedExample | host/host_server.py:1727 | a screen and a packer with which that happens |
| ScreenshotSystem.DeltaBufferFits | mac/src/screenshot.c:292-331 | on every run a delta is made only of rows without padding, and the daemon's output buffer is large enough for it |
| ScreenshotSystem.PayloadInRange | host/host_server.py:1682-1685 | what the daemon declares stays below the host's cap |
| PngWriter.RawToPng | host/screenshot_decode.py:46-125 | every pixel of the truecolor image is the pixmap's colour there; IndexError exactly when a byte is missing, but at 32 bits short rows |
| PngColours.SixteenBits | host/screenshot_decode.py:110-112 | a word of five bits each of red, green and blue, below one bit that does not count, shows these three, expanded |
| PngColours.Expansion | host/screenshot_decode.py:41-43 | expansion is strictly increasing from 0 to 255, and less than a step off the exact proportion |
| PngColours.ThirtyTwoBits | host/screenshot_decode.py:113-117 | the three bytes behind an unused one are red, green and blue |
| PngColours.FourBits | host/screenshot_decode.py:92-96 | the left one of two pixels is in the high four bits |
| PngColours.TwoBits | host/screenshot_decode.py:97-101 | four pixels stand in a byte from the highest two bits on |
| PngColours.OneBit | host/screenshot_decode.py:102-106 | eight pixels stand in a byte from the highest bit on |
| PngColours.IndexColours | host/screenshot_decode.py:72-84 | an index shows its three bytes of the table; without an entry a step of a gray ramp, and at one bit white for 0 and black for 1 |
| PngColours.PaletteColours | host/screenshot_decode.py:252-261 | the palette has these colours, for the entries there are, cut to what the depth can name, or for all indices |
| PngColours.CropMeans | host/screenshot_decode.py:59-68 | a pixel is in the crop if and only if it is on the screen and in the region, moved to the edge when it starts before it |
| PngColours.RejectedMeans | host/screenshot_decode.py:54-66 | which arguments are refused, in which order |
| PngColours.TruecolorBytes | host/screenshot_decode.py:86-117 | a scanline is a zero and three bytes a pixel |
| PngColours.IndexedBytes | host/screenshot_decode.py:289-301 | a scanline is a zero and the pixmap's own bytes from the crop's first one on |
| PngWriter.RawToPngIndexed | host/screenshot_decode.py:264-307 | the scanlines are slices of the pixmap, or the image is too short; unaligned crops fall back |
| PngRefines.FastRefinesSlow | host/screenshot_decode.py:264-307 | both fail on the same buffers; on the others the images show the same colours if and only if the palette is empty or covers every index |
| PngRefines.WideRows | host/screenshot_decode.py:264-307 | row_bytes * 8 >= width * depth is enough for both to succeed |
| PngRefines.SampleIsIndex | host/screenshot_decode.py:98-110 | PNG's packing of pixels into bytes is QuickDraw's |
| LzssFormat.DecodeSerialize | host/bench/fbbench.c:254-301 | the reference decoder reads back exactly the tokens that were serialised |
| LzssTree.AttachedValid | host/bench/fbbench.c:207-220 | hanging a new node below an empty link keeps the trees |
| LzssTree.ReplacedValid | host/bench/fbbench.c:228-231 | putting the new node in an equal one's place keeps the trees |
| LzssTree.SplicedValid | host/bench/fbbench.c:234-239 | removing a node with at most one child keeps the trees |
| LzssTree.PromotedValid | host/bench/fbbench.c:240-251 | removing a node with two children keeps the trees |
| LzssKeys.Sandwich | host/bench/fbbench.c:221-226 | what lies behind a node in the order agrees with the key no longer than the node does |
| LzssOrder.AttachedOrder | host/bench/fbbench.c:214-220 | a new leaf where the search ended keeps the search order |
| LzssOrder.ReplacedOrder | host/bench/fbbench.c:228-231 | so does a node in an equal one's place |
| LzssOrder.SplicedOrder | host/bench/fbbench.c:234-239 | so does the removal of a node with at most one child |
| LzssOrder.PromotedOrder | host/bench/fbbench.c:240-251 | so does the removal of a node with two children, its predecessor taking its place |
| LzssSearch.SpineGreatest | host/bench/fbbench.c:241-244 | the end of the right spine is the greatest node of the left subtree |
| LzssSearch.SeenBelow | host/bench/fbbench.c:213-227 | what a step of the search leaves behind agrees with the key no longer than the best match so far |
| LzssSearch.Descend | host/bench/fbbench.c:213-220 | where the search ends, no node of the trees agrees longer, and the key belongs there |
| LzssGreedy.Stored | host/bench/fbbench.c:287-288 | the byte written, with its mirror, is part of no node's text, so the trees stay ordered |
| LzssGreedy.Entered | host/bench/fbbench.c:285-290 | after each insertion every source position in the window has a node with its text that stays as long as it does |
| LzssGreedy.LongestFound | host/bench/fbbench.c:221-226 | the match found is the longest that the source positions in the window offer |
| LzssGreedy.ChosenBest | host/bench/fbbench.c:268-277 | the item chosen, cut to what is left of the input, is the longest |
| LzssEncoder.Encoder.InitTree | host/bench/fbbench.c:200-205 | valid, empty trees |
| LzssEncoder.Encoder.InsertNode | host/bench/fbbench.c:207-232 | the trees stay valid and ordered, the node is in, the match is a true one, and no node of the trees gives a longer one |
| LzssEncoder.Encoder.FindPredecessor | host/bench/fbbench.c:241-244 | the walk down the right links ends at the greatest node below p's left child |
| LzssEncoder.Encoder.DeleteNode | host/bench/fbbench.c:234-252 | the trees stay valid and ordered, and exactly that node is out |
| LzssEncoder.Encoder.Lzss | host/bench/fbbench.c:254-301 | for every input, the bytes written decode to the input, also with the decoder of LzssStandard, they are a greedy parse of it, and every array index is in bounds |
| LzssStandard.StandardReads | host/bench/fbbench.c:190-193 | what the encoder's format means is what a ring of 4096 bytes means that starts writing at 4078, with 12 bits for a place and 4 for a length from 3 to 18 |
| LzssWindow.CopyNext | host/bench/fbbench.c:277-278 | a match copied by the decoder, overlapping itself or not, appends the input's next bytes |
| LzssWindow.CodedNext | host/bench/fbbench.c:268-279 | one more true token extends what is coded |
| Number.ParsesBack | mac/src/protocol.c:11-42 | int() of a printed number is the number |
| Number.DecimalMeans | mac/src/protocol.c:11-42 | a printed number is its digits in base ten, without zeroes in front, behind a minus when it is negative |
| Number.ParseIntMeans | mcp/mac_connection.py:200-205 | int() takes white space at both ends, one sign, and digits with single underscores between them |
| Bytes.FirstEol | host/host_server.py:1011-1024 | the first line end, and none before it |
| HostLink.FrameReader.ReadLine | host/host_server.py:1011-1024 | the line and buffer of the one-shot reading, however often it refills |
| HostLink.FrameReader.ReadExact | host/host_server.py:1026-1031 | exactly n bytes, or stopped with the buffer as it stands |
| HostLink.FrameReader.ReadResponse | host/host_server.py:1042-1082 | one reply as the reading function says |
| FrameSpec.DeclaredMeans | host/host_server.py:1048-1051 | a header declares what int() makes of the text behind its first colon, 0 when that is blank, and nothing otherwise |
| FrameSpec.TerminatedMeans | host/host_server.py:1033-1040 | a blank line is two LF, two CR, or two pairs of CR LF in a row |
| FrameCutting.LineReads | host/host_server.py:1011-1024 | a line is read from any cutting of it, and nothing behind it is lost |
| FrameCutting.AnyCutting | host/host_server.py:990-1106 | for every cutting the reply comes exactly when the whole frame has arrived, nothing of it is left and nothing behind it is asked for; otherwise what is handed over is an end of what came |
| FrameCutting.CuttingIff | host/host_server.py:1011-1024 | a frame survives every cutting if and only if neither text starts with the other half of the line end |
| FrameCutting.TerminatorReads | host/host_server.py:1033-1040 | a text that ends with its first blank line is taken whole from any cutting, and nothing behind it; less of it is not taken |
| FrameCutting.RejectionCutting | mac/src/main.c:4857 | a rejection written out by hand is read from any cutting exactly when all of it has arrived, whatever length it declares |
| FrameCutting.FailureIff | mac/src/main.c:4757 | a failure without the blank line is read from every cutting if and only if it declares a length from 1 to that of its text |
| FrameCutting.MessageCutting | host/host_server.py:990-1106 | the same for whatever the daemon sends: result, rejection or failure |
| FrameCutting.OversizedDrops | host/host_server.py:1055-1060 | a declared length above the cap is answered without reading it |
| Drain.DrainMeaning | host/host_server.py:900-967 | a realigning drain ends at the first pass at or after its budget at the latest; it succeeds only after the quiet time without data and drops the link only when the budget is spent |
| Drain.IdleMeaning | host/host_server.py:900-967 | a drain without a noted desync takes chunks while there are any; then the link is alive if and only if nothing is there, dead on a close or an error, and never dropped |
| Drain.QuietBound | host/host_server.py:905-956 | the limit of silence is never less than the quiet time behind the last data |
| HostLink.AppleBridgeServer.AcceptMac | host/host_server.py:827-866 | polling or waiting: a TCP link starts aligned with a new generation, a serial one keeps the note of a desync, neither can read what has landed before; no arrival changes nothing |
| HostLink.NoteMeans | host/host_server.py:1115 | a note is never empty: the command, its first 48 characters, or a label |
| HostLink.CommandMeans | host/host_server.py:969-988 | the link stays up exactly when drain and sending succeed and the peer neither closes nor declares too much; a time-out, and nothing else, makes a note |
| HostLink.AppleBridgeServer.MarkDisconnected | host/host_server.py:868-891 | the link is gone, and calling it again changes nothing |
| HostLink.AppleBridgeServer.DrainLink | host/host_server.py:893-967 | it ends by the given pass, with the verdict that the polls decide, and leaves the link as that verdict says |
| HostLink.AppleBridgeServer.ReadFramedResponse | host/host_server.py:990-1106 | a time-out notes the desync, a close or an absurd length ends the link, and what is returned is the reply or the buffer |
| HostLink.AppleBridgeServer.SendCommand | host/host_server.py:969-988 | drain, send, read: the whole new state and the text returned |
| LateBytes.DrainEmptiesIff | host/host_server.py:893-967 | every realigning drain that succeeds has taken all late bytes, if and only if none of them comes behind a gap |
| LateBytes.GapAtOnce | host/host_server.py:905-956 | what a gap is when a pass takes no time: a pause longer than the quiet time, from the start on and within the budget |
| LateBytes.LeftBehindGap | host/host_server.py:893-967 | the first byte that such a drain leaves behind is one behind a gap |
| LinkRuns.AskReads | host/host_server.py:969-988 | one command: the whole reply when all of it was heard, and then the link is aligned; otherwise at most a stretch of its own reply, and the desync is noted |
| LinkRuns.EveryReplyIsItsOwn | host/host_server.py:893-1106 | on every run without gaps in late bytes, TCP or serial, every text handed back comes from the reply to the command just sent |
| LinkRuns.GoneAnswersNothing | host/host_server.py:934-936 | on every link whose peer has closed, the command returns nothing and the link is down |
| LinkRuns.GenerationCounts | host/host_server.py:844-864 | on every run, two links never have the same generation |
| ClosedReads.ResponseFollows | host/host_server.py:1042-1106 | a peer that closes is read like one that stops sending, except that the reader knows |
| LinkReopens.ReopenIff | host/host_server.py:840-847 | after a serial reopening every command whose reply comes whole gets it and stays in step, if and only if the note of the desync is still there or no byte comes after the reopening |
| LinkReopens.LateSpoils | host/host_server.py:990-1106 | with late bytes in front that start with another line, a reply without texts is not what is read |
| LinkReopens.ReopenMisleads | host/host_server.py:925-950 | for every stream that outlasts a drain's budget there is a run from the first serial link on, of a timed-out command, the drain that drops the link, a reopening and the next command, whose answer is read from the late bytes |
| LinkReopens.ReopenChunkIsMistaken | host/host_server.py:925-950 | the next piece of the late reply is handed back as the next command's |
| LinkMistakes.GapsMislead | host/host_server.py:893-988 | for every gap there is a run from the first link on, of a timed-out command and the next one, on which the next one's answer is read from the late bytes |
| LinkMistakes.LateReplyIsMistaken | host/host_server.py:893-988 | a gap in front of the whole late reply: it is handed back as the next command's |
| LinkMistakes.LateChunkIsMistaken | host/host_server.py:893-988 | a gap inside it: so is the next piece of it |
| ReplySpec.MacConnection.ParseResponse | mcp/mac_connection.py:170-281 | the triple and the two fields off it are those of the walk over the lines |
| ReplySpec.FieldMeans | mcp/mac_connection.py:200-272 | a line is a field's if and only if it starts with its tag |
| ReplySpec.FieldEndMeans | mcp/mac_connection.py:207-220 | a counted field takes lines until it has what it counts, and no more |
| ReplySpec.LineMeans | mcp/mac_connection.py:197-272 | what each kind of line sets; SHOTINFO and NOTES stripped, and none when nothing is left |
| ReplySpec.ParseMeans | mcp/mac_connection.py:184-192 | the sentinels; and a reply exactly with a status |
| ReplySpec.StatusOf | mcp/mac_connection.py:158-168 | success is reported only for a complete reply whose status is 0: never after a time-out, never without a STATUS line |
| ReplySpec.WalkKeeps | mcp/mac_connection.py:243-272 | NOTES and SHOTINFO never decide the triple |
| ReplyMeaning.FieldText | mcp/mac_connection.py:213-224 | a counted field takes the lines of its text, whatever they look like |
| ReplyMeaning.ReplyMeans | mcp/mac_connection.py:170-281 | a daemon frame parses to its status, payload and error text, line ends as LF and the ends stripped |
| ReplyMeaning.WireToCaller | host/host_server.py:990-1165 | the same from the wire, for every cutting of the frame |
| ReplyMeaning.RefusalMeans | mcp/mac_connection.py:170-281 | a rejection parses to its status and its text, also when the length that it declares is a little short |
| ReplyMeaning.FailureMeans | mcp/mac_connection.py:170-281 | a failure parses to its status and its whole text, also when the length that it declares is too short |
| ReplyNotes.NotesChangeNothing | host/host_server.py:2107-2125 | where the declared lengths fit, the NOTES field leaves the triple alone and reaches the client |
| ReplyNotes.RelayedNotes | host/host_server.py:2123-2125 | a relayed reply gets the field if and only if its error text ends with CR |
| ReplyNotes.RefusalNotes | host/host_server.py:2123-2125 | a rejection gets it if and only if its line ends are CR |
| ReplyNotes.ShotReplyMeans | host/host_server.py:2351-2359 | the control server's screenshot reply parses to status 0 and the picture, with its cost kept aside |
| Crc.Crc16Ccitt | host/macbinary.py:26-36 | the register loop computes the check |
| Crc.CrcXor | host/macbinary.py:26-36 | the check of an exclusive or is the exclusive or of the checks |
| Crc.ShiftKeeps | host/macbinary.py:31-35 | one turn of the register loses nothing |
| Crc.Residue | host/macbinary.py:105-109 | data and check behind one another check out to zero, and only they do |
| Crc.DifferenceSeen | host/macbinary.py:26-36 | texts that differ only within two adjacent bytes have different checks |
| MacBinaryFormat.CheckOfOne | host/macbinary.py:26-36 | the start value is 0, and a one that leaves the register comes back as 0x1021 |
| MacBinary.Encode | host/macbinary.py:56-91 | the image, field by field, or struct.error for a fork of 2^32 bytes |
| MacBinaryProofs.RoundTrip | host/macbinary.py:56-136 | decoding an image gives both forks, type, creator, 16 bits of flags and the name cut to 63 bytes |
| MacBinaryFormat.RoundTripMeans | host/macbinary.py:44-71 | a name of 1 to 63 bytes comes back as it is, a longer one cut, none as "File"; type and creator as given, cut to four bytes or filled up with spaces |
| MacBinaryFormat.HeaderLayout | host/macbinary.py:68-85 | where each field stands in the header, and that all else is zero |
| MacBinaryFormat.ForkLayout | host/macbinary.py:86-91 | the forks behind it, each filled up with zeroes to whole blocks of 128 bytes |
| MacBinaryFormat.LooksMeans | host/macbinary.py:94-110 | what is taken for an image, in terms of its bytes |
| MacBinaryProofs.PrefixIff | host/macbinary.py:94-136 | a prefix is accepted if and only if it holds every fork byte, and then it gives the file |
| MacBinaryProofs.ByteChange | host/macbinary.py:94-110 | a changed header byte is accepted if and only if it is byte 126 or 127, or the version byte set below 129 |
| MacBinaryProofs.BurstRejected | host/macbinary.py:105-109 | no change within two adjacent checked bytes is accepted while the version byte asks for the check |
| HangJudge.Judge.Observe | host/hang_watch.py:82-108 | state and verdict are those of the transition function |
| HangJudge.KillMeans | host/hang_watch.py:82-108 | a kill has an earlier answer of the same process, none and no kill since, and a window of at least the silent time in which everything is refused or silent and busy and all pictures are one |
| HangJudge.AnswerBetween | host/hang_watch.py:104-107 | between two kills there is an answer |
| HangJudge.FrozenGuestIsKilled | host/hang_watch.py:82-108 | a guest that answered and then stays silent, busy and frozen for the silent time is killed |
| HangJudge.VerdictsMean | host/hang_watch.py:82-108 | ok is an answer, booting is no answer that counts yet, and silence with an idle processor is quiet |
| RepeatWatch.SameCall | host/loop_guard.py:62-82 | two calls have one key if and only if they agree on every argument that says something |
| RepeatWatch.Watch.CycleLength | host/loop_guard.py:125-141 | the least p whose last 2p fresh calls are two equal halves, or none |
| RepeatWatch.Watch.Note | host/loop_guard.py:84-123 | the report is the one that the trace of calls implies |
| RepeatWatch.CountMeans | host/loop_guard.py:86-91 | the count is the length of the chain of equal calls without a pause longer than the window |
| RepeatWatch.ReportMeans | host/loop_guard.py:84-141 | with a clock that does not go back, when there is a report and what each of its fields says of the calls |
| RepeatWatch.CycleRepeats | host/loop_guard.py:125-141 | a cycle contains a repeat within the window |
| RepeatWatch.ReportsAgree | host/loop_guard.py:84-141 | a report names at least two identical calls, and it has consecutive calls exactly when the cycle length is 1 |
| LoopMonitors.TerminationWatch.Note | host/loop_guard.py:433-454 | the fields stay those that the trace implies |
| LoopMonitors.TerminationWatch.Ending | host/loop_guard.py:472-480 | the outcome is that of the last write, the last compile behind it and its verdict |
| LoopMonitors.OutcomeMeans | host/loop_guard.py:433-480 | the five outcomes, each exactly, in terms of the calls that reached a tool |
| LoopMonitors.UncompiledWrite.Note | host/loop_guard.py:593-606 | the hint is that of the trace, and none for a refused call |
| LoopMonitors.HintMeans | host/loop_guard.py:593-622 | the hint names the path of the last write as long as no compile follows it |
| LoopMonitors.HintIffNotRecompiled | host/loop_guard.py:608-622 | there is a hint if and only if the outcome is not_recompiled |
| LoopMonitors.RefusedSaysNothing | host/loop_guard.py:444-446 | a refused result changes neither |
| Score.Termination | bench/score.py:359-381 | the replay is the outcome of the run cut before its fifth executed compile |
| Score.CutMeaning | bench/score.py:246-259 | the cut has at most four compiles, they are the ones scored, and what is cut off starts with the fifth |
| Score.TruncationExact | bench/score.py:280-381 | first attempt, repairs, passes, tool mix, arms and ending are the same on the run and on its cut |
| ScoreMeaning.PassedMeans | bench/score.py:307-320 | a run passes within k if and only if one of its first k attempts, and of its first four, succeeded |
| ScoreMeaning.FirstMeans | bench/score.py:280-286 | the first attempt's own word, and none without one |
| ScoreMeaning.RepairMeans | bench/score.py:288-305 | which runs are counted for repairs, and which of them repaired |
| ScoreMeaning.MixMeans | bench/score.py:343-357 | the mix counts the scored attempts by tool |
| ScoreMeaning.WatchIsTold | bench/score.py:368-380 | the watch is told of every tool record in turn, refused ones as refused |
| Score.PassedMonotone | bench/score.py:307-320 | more attempts never lose a pass, and from four on they change nothing |
| Score.RepairedIsPassed | bench/score.py:288-320 | after a failed first of several compiles, repairing within k is passing within k |
| Score.RecompiledIsPassed | bench/score.py:359-381 | a recompiled_ok ending is a pass within four |
| ScoreTables.SplitRuns | bench/score.py:121-140 | the runs joined are the records, and each run starts where a run_start is, or is the marked group in front |
| ScoreTables.SplitMeans | bench/score.py:121-140 | runs reach from a run_start up to the next; records in front stand behind a mark of their own |
| ScoreMeaning.RunArmMeans | bench/score.py:579-586 | a declared arm is the run's; without one lint if some attempt ran under it, else nolint if one did |
| ScoreTables.CellsMean | bench/score.py:617-628 | a task's cell by the last verdicts of its two arms |
| ScoreTables.Paired | bench/score.py:589-640 | for any verdict on runs, the table holds each task's last word in each arm, sorted into its cells |
| ScoreTables.TableMargins | bench/score.py:617-640 | every task is in one cell, and the net gain is the difference of the two arms' passes among complete pairs |
| MarkerSearch.BinaryHasExport | host/fb_export.py:131-147 | found if and only if a marker touches at most two neighbouring chunks |
| MarkerSearch.SearchIsExact | host/fb_export.py:131-147 | with at least 15 bytes in every chunk between the first and the last, that is whether the file contains the marker |
| MarkerSearch.ShortChunkHides | host/fb_export.py:131-147 | a shorter chunk in the middle can hide it |
| PrefsEdit.RewriteIpLine | host/install_bridge.py:1538-1560 | the first IP= line is replaced, or one is added, and every other byte is kept |
| PrefsEdit.EditMeans | host/install_bridge.py:1538-1560 | the result byte by byte: the line exchanged up to its end, or added with the file's own line end |
| PrefsEdit.PutPut | host/install_bridge.py:1538-1560 | a second address wins as if the first, one line long, had never been written |
| PrefsEdit.TwiceIffOneLine | host/install_bridge.py:1538-1560 | writing an address twice is writing it once if and only if it has no line end |

## Left out

- Sockets, serial ports, zlib, base64, PNG chunk checks, the MacRoman table (any table that keeps ASCII apart), logging and subprocesses.
- HostLink.AppleBridgeServer.AcceptMac: the bind and listen before it, and a flush that fails.
- LinkRuns.EveryReplyIsItsOwn: verbs read by the framed reader; screenshots, file transfers and other verbs with their own readers never note a desync.
- LinkRuns.Step: the daemon sends results, rejections and failures, nothing unasked.
- FrameCutting.AnyCutting: the daemon uses one character for all its line ends.
- FrameCutting.Frame: a result with a length but no data handle, for which the daemon sends a length and no data, and an error text that a NUL cuts short.
- FrameCutting.RejectionCutting: rejections with a blank line or no text at all, which the daemon does not have.
- Number.ParsesBack: int() of more than 4300 digits, and of digits outside ASCII.
- ScreenshotSystem.EveryShotIsRight: the generation counter is unbounded, a daemon restart comes with a new link.
- ScreenshotHost.ShotState.HandleAnswer: negative numbers in the IMAGE2 header, and its text.
- ScreenshotSystem.Step: the old SCREENSHOT exchange, beyond that it is asked for, and numbers in the verb that overflow 32 bits.
- LzssGreedy.LongestFound: the spaces in front of the input are not counted among the positions that offer a match; the encoder enters the last 18 of them newest first, so it can lose one that is still in the window.
- RepeatWatch.Watch.Note: the pause is not rounded to two digits.
- RepeatWatch.SameCall: a value that is neither null nor text is known by its repr.
- ReplySpec.MacConnection.ParseResponse: the wording of the messages for unframed and malformed replies.
- ScoreTables.Paired: the cells are sets, not sorted lists.
- `artefact_present`, `false_claim` and the report: they read records behind the cut, or prose.
- `parse_dump`, `request_dump` and the cache of `binary_has_export`.
- `RowCompare`, `RowDedup` and `Half` of the benchmark, which only measure.
- Reading and writing images on disk, installers, `mpw.py`, the step and compile budgets: nothing in them spans more than one call.
