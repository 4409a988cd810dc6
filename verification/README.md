# Verified model of the Autumn API's state machines

Dafny models of the parts of Autumn with real state and arithmetic, and proofs of what they are meant to guarantee:

* **The stream layer of minimp3** (`Bits`, `Header`, `SideInfo`, `Reservoir`, `Sync`, `Decoder`, `Index`, `Player`,
  `Seeking`, `Counting`, `Accuracy`, `Exactness`, `Opening`, `Load`, `Playback`, `Reorder`, with concrete streams in
  `Witness`): the bit reader and the Huffman bit cache, the Layer III side-info parser, the bit reservoir over whole runs,
  frame search and iteration over a buffer, the control of `mp3dec_decode_frame`, the sample index with its binary search,
  `mp3dec_ex_seek` with its back-fill, incremental reads, opening, and whole-buffer loads. The decoder is shown to perform
  the reservoir run over the frames it takes from any buffer, bytes between the frames included
  (`Decoder.DecoderPerformsRun`). `Playback.Play` puts the rest together: what is read after opening a buffer and after a
  seek, in terms of the samples that decoding it from its first frame yields.
* **The AutixSurf compositor** (`Pixels`, `Compositor`, `Surfaces`): clipped row copies and title bars drawn by a sweep
  over 32 z-orders and 32 slots, equal to a definition of the picture by the topmost covering layer at each position;
  and the layer table over runs of client calls.
* **ChatTunnel** (`Tunnel`): the lock-free ring as a state machine whose steps are single loads, stores and byte copies;
  every interleaving is linearizable to a queue of 255 messages.
* **Three small kernels**: Bresenham's line (`Line`), the wrapping arena (`Arena`) and the UTF-8 reader (`Utf8`).

Code that works in place is written in place: classes with the source's fields, methods that change them, loops with
invariants. Each such method is proved against a function or a property of the values before and after, and the lemmas
are about those. C's wrap-around is written out where the source depends on it (`Bits.WORD`, `Arena.SIZE_T`); its
truncating division is `Compositor.Quotient`. Elsewhere sums are taken to fit their C type.

What the proofs brought to light, with the conditions under which it happens:

* **A seek ends up at the sample asked for, early by the samples that the index counts before the first frame that decodes,
  and late by those of the frames before the restart that are missing from the index** (`Accuracy.SeekYields`). So it is
  exact if and only if the two are equal, or nothing is left to be read (`Exactness.SeekIsExactAt`).
  * *Counted too early.* The scan decodes only the first 255 frames to find out which one starts: if none of the first 256
    decodes, the count starts too early (`Exactness.FreshIndexIff`, `Witness.LateStartIsMiscounted`). And an index built on
    demand is built with the decoder as the last read left it, whose reservoir may make leading frames decode that fail
    otherwise (`Witness.StaleIndexDiffers`). When the first frame decodes neither can happen (`Playback.SeekAfterReading`).
    When no frame is missing, all seeks of a reader with start delay d are exact if and only if the index counts from the
    first frame that decodes, or the stream ends before the delay does (`Exactness.SeekIsExactIff`,
    `Witness.DelayHidesStaleIndex`).
  * *Missing from the index.* Before bytes that are no header a search takes a frame of a row only when ten more follow
    (`Sync.ChainedIff`, `Decoder.RowIsFound`), while a decoder that has come so far goes on to all but the last
    (`Decoder.RowIsContinued`): the index misses up to nine frames at each gap. When it counts from the right frame, a
    seek is exact if and only if no frame before its restart is missing, or nothing is left (`Exactness.GappedSeekIff`).
    A scanned length is right if and only if as many frames are missing as are counted too early
    (`Exactness.ScanCountsSamples`). `Witness.GapMakesSeeksLate` gives the bytes of streams with a gap on which seeks are
    late by nine frames and the length is too small by as many.
* **Reading on from the opening agrees with reading after a seek to the same position, for all positions, if and only if**
  failing leading frames use up as much of the start delay as the index counts before the first frame that decodes, or the
  stream ends before the rest of the delay does (`Exactness.OpenAgreesIff`, when no frame is missing from the index;
  `Exactness.OpenAgreesAt` for one position in any stream): a frame that fails uses up its part of the delay of a reader
  just opened, but not of the delay that a seek adds to its position (`Witness.OpeningDiffers`,
  `Witness.LateStartIsMiscounted`, `Witness.DelayHidesStaleIndex`).
* **A whole load and reading everything after opening give the same samples, before both are cut to an announced length,
  if and only if** there is no start delay, or the first frame decodes, or the stream ends before the rest of the delay
  (`Playback.LoadAgreesIff`); and where a tag announces a length of 0 a load gives nothing, a reader the whole stream
  (`Playback.LoadAndOpen`).
* **After 511 bytes of main data a restart decodes the same frames from the same main data as the run from the start**,
  but its reservoir buffer may still be longer until a frame has decoded: `Reservoir.SameReservoirIff` says exactly when
  the buffers agree, `Reservoir.ResynchronisedForGood` that they agree for good after the first decoded frame, and
  `Witness.ReservoirsDiffer` gives the bytes of a stream for which they differ.
* A byte-mode seek is clamped to the file, not to the tag-stripped range. A position between the two makes the size that
  the next read takes to be left wrap around (`Witness.ByteSeekPassesTheEnd`); `Player.Mp3Ex.SeekToByte` states when the
  reader stays valid.
* The scfsi of the first granule of a channel, where the standard has none, holds private bits, as `L3_read_side_info`
  shifts one word through all granules (`SideInfo.FirstScfsi`).
* An APE tag without a header costs 32 bytes of the audio before it (`Sync.ApeIsStripped`).
* A sequence cut short by the end of a text leaves the UTF-8 reader where it is. A caller's loop ends if and only if it
  comes to no such sequence (`Utf8.LoopEndsIff`).
* A block of the arena survives later allocations up to eight bytes beyond T + m + s = ARENA_SIZE, and no further
  (`Arena.SafeIff`).

## Model

| member | source | states |
|---|---|---|
| Bits.BitReader.constructor | v0.1-alpha/include/minimp3.h:241-246 | the reader starts at bit 0 with 8 bits per byte as its limit |
| Bits.BitReader.GetBits | v0.1-alpha/include/minimp3.h:248-262 | the big-endian value of the next n <= 32 bits, 0 past the limit; the cursor advances by n either way |
| Bits.BitsConcatenate | v0.1-alpha/include/minimp3.h:248-262 | reading m and then n bits gives the two parts of the value of m + n bits |
| Bits.BitsSplit | v0.1-alpha/include/minimp3.h:248-262 | shifting and masking a value of m + n bits gives back the two reads |
| Bits.BitCache.constructor | v0.1-alpha/include/minimp3.h:772-776 | the first cache word holds the bits from the position given; BSPOS is that position |
| Bits.BitCache.Peek | v0.1-alpha/include/minimp3.h:765 | PEEK_BITS(n), for 1 <= n <= 24 - bs_sh, is the value of the n bits at BSPOS, inside the buffer |
| Bits.BitCache.Flush | v0.1-alpha/include/minimp3.h:766 | FLUSH_BITS(n) moves BSPOS by n and keeps the cache in step with the buffer, even when it runs empty |
| Bits.BitCache.Check | v0.1-alpha/include/minimp3.h:767 | CHECK_BITS refills without moving BSPOS, also when more bits were flushed than the cache held |
| Header.FrameLengthFromHeader | v0.1-alpha/include/minimp3.h:281-314 | only a free-format header leaves the length open; every other valid header gives 24 to 1728 bytes |
| Header.ValidIff | v0.1-alpha/include/minimp3.h:264-271 | a header is taken if and only if it has the syncword, no reserved version, layer, bit rate or sample rate, and version 2.5 with Layer III only |
| Header.CompareIff | v0.1-alpha/include/minimp3.h:273-279 | two headers belong to one stream if and only if they agree in sample rate, layer and on being free-format |
| Header.BitrateLaw | v0.1-alpha/include/minimp3.h:281-288 | the bit rates from the header bytes by closed laws: 32 i in MPEG-1 Layer I, four to the octave in Layers II and III, steps of 8 and 16 (or 16 and 32) kbps in MPEG-2 and 2.5 |
| Header.RateLaw | v0.1-alpha/include/minimp3.h:290-294 | 44100, 48000 or 32000 Hz, half of it in MPEG-2, a quarter in MPEG-2.5 |
| Header.LengthLaw | v0.1-alpha/include/minimp3.h:296-314 | the frame length in slots of four bytes (Layer I) or one byte: 12, 144 or 72 times bit rate over sample rate, and one slot more when the padding bit is set |
| Sync.FrameSizeLaw | v0.1-alpha/include/minimp3.h:281-314 | the same over the bytes of a buffer; 417 bytes for 128 kbps at 44.1 kHz, 418 with padding |
| SideInfo.SideInfoBytes | v0.1-alpha/include/minimp3.h:484-607 | the layout ends after 17/32 bytes (MPEG-1 mono/stereo) or 9/17 bytes (MPEG-2/2.5), whatever branches are taken |
| SideInfo.ReadSwitched | v0.1-alpha/include/minimp3.h:535-573 | the window-switching branch stores the fields of the standard at their positions, and fails on block type 0 |
| SideInfo.ReadWindow | v0.1-alpha/include/minimp3.h:534-586 | both branches consume the same bits and store the fields at the positions the standard gives them |
| SideInfo.ReadGranule | v0.1-alpha/include/minimp3.h:517-597 | a granule parses if and only if it is legal; then every field is the one at its position and the cursor is behind it |
| SideInfo.ReadSideInfo | v0.1-alpha/include/minimp3.h:484-607 | main_data_begin if and only if all granules are legal and their lengths fit the frame and its back reference, else -1; on success the cursor is at the end, all granules are stored, the second granule of each MPEG-1 channel has its scfsi, or 0 after a short block, the first one what the shifted word holds there, and MPEG-2 granules have 0 |
| SideInfo.GranuleBits | v0.1-alpha/include/minimp3.h:532-546 | inside the limit the length, big_values, gain and scalefac_compress of a stored granule are the bits at the positions that version and channels give |
| SideInfo.WindowBits | v0.1-alpha/include/minimp3.h:547-592 | likewise the fields behind them: three tables and two region counts of five, four and three bits, or block type, mixed flag, two tables and three gains, with the bands this calls for |
| SideInfo.FlagBits | v0.1-alpha/include/minimp3.h:593-595 | the last three fields likewise; preflag is sent in MPEG-1 only and follows from scalefac_compress otherwise |
| SideInfo.ScfsiBits | v0.1-alpha/include/minimp3.h:522-599 | the second granule of an MPEG-1 channel is stored with the four bits sent for it, or 0 if either granule is a short block; the first one with the private bits, or 0 in the first of two channels and in short blocks |
| SideInfo.PartsAddUp | v0.1-alpha/include/minimp3.h:538-604 | the lengths that are held against the frame are those of one, two or four granules |
| SideInfo.OkIff | v0.1-alpha/include/minimp3.h:538-604 | side info inside its frame parses if and only if each granule is legal over its bits and all lengths fit into the bytes referred back to and those behind it |
| SideInfo.BackReference | v0.1-alpha/include/minimp3.h:522-530 | main_data_begin is the first nine bits in MPEG-1, the first eight in MPEG-2 and 2.5 |
| SideInfo.SilenceIsLegal | v0.1-alpha/include/minimp3.h:484-607 | side info of zeros, as in the frame of a tag, is legal |
| SideInfo.FirstServed | v0.1-alpha/include/minimp3.h:524-599 | the word serves the first granule of a channel private bits or 0, never a group of scfsi bits |
| SideInfo.ScfsiGroupBits | v0.1-alpha/include/minimp3.h:522-599 | the scfsi group of a channel is the four bits that the standard puts behind the private bits |
| SideInfo.ScfsiServed | v0.1-alpha/include/minimp3.h:517-599 | shifting and masking one word serves each channel its own group at its second granule |
| Reservoir.Store.Restore | v0.1-alpha/include/minimp3.h:1228-1236 | main data is the last `begin` bytes of the reservoir and the frame's own; success if and only if there are that many |
| Reservoir.Store.Save | v0.1-alpha/include/minimp3.h:1212-1226 | the reservoir is the last 511 bytes, at most, of what the granules left of the main data |
| Reservoir.Store.Frame | v0.1-alpha/include/minimp3.h:1754-1780 | restoring, decoding and saving one frame takes the reservoir one step of the run |
| Reservoir.ReservoirInvariant | v0.1-alpha/include/minimp3.h:1212-1236 | over any run the reservoir is a suffix of the main data since the last reset, of at most 511 bytes; a frame that decodes gets the stream from exactly main_data_begin bytes before its data to its end |
| Reservoir.ResetRestarts | v0.1-alpha/include/minimp3.h:1720-1763 | a frame whose side info is illegal, or behind which the stream does not go on, makes every run that passes it start afresh |
| Reservoir.Resynchronised | v0.1-alpha/include/minimp3_ex.h:808-853 | after 511 bytes of main data a restart with an empty reservoir decodes exactly the frames the run from the start decodes, each from the same main data |
| Reservoir.ResynchronisedForGood | v0.1-alpha/include/minimp3_ex.h:808-853 | from its first decoded frame on, the restarted run has the reservoir of the run from the start |
| Reservoir.SameReservoirIff | v0.1-alpha/include/minimp3_ex.h:808-853 | after 511 bytes the two reservoirs are equal if and only if a frame has decoded since the restart or the reservoir of the run from the start is full |
| Reservoir.ReservoirMayDiffer | v0.1-alpha/include/minimp3.h:1212-1236 | two frames of 555 bytes of main data for which the restart holds 511 bytes and the run from the start 45 |
| Sync.MatchFrame | v0.1-alpha/include/minimp3.h:1657-1669 | a header matches if and only if ten more headers of its stream follow, or at least one does before the buffer ends |
| Sync.FindFreeLength | v0.1-alpha/include/minimp3.h:1681-1693 | the length of a free-format frame is the shortest distance at which two more headers follow |
| Sync.FreeLengthIff | v0.1-alpha/include/minimp3.h:1681-1693 | this distance is the least one of 4 to 2303 bytes, longer than the padding, at which two more headers of the stream follow |
| Sync.TryHeader | v0.1-alpha/include/minimp3.h:1676-1700 | the exact condition under which a header is taken for a frame, with its length |
| Sync.FindFrame | v0.1-alpha/include/minimp3.h:1671-1706 | the first accepted frame, or the whole remaining length when there is none |
| Sync.FindSkipsNothing | v0.1-alpha/include/minimp3.h:1671-1706 | no header that is passed over would have been accepted |
| Sync.SkipId3v1 | v0.1-alpha/include/minimp3_ex.h:138-160 | what is left before an ID3v1 (with extension) and an APE tag |
| Sync.SkipId3 | v0.1-alpha/include/minimp3_ex.h:162-192 | the range between a leading ID3v2 tag and the tags at the end, inside the buffer for every content |
| Sync.IterateBuf | v0.1-alpha/include/minimp3_ex.h:528-565 | terminates; the callback is called for each frame of the tag-stripped range in turn until it returns something else than 0 |
| Sync.FramesPartition | v0.1-alpha/include/minimp3_ex.h:528-565 | the frames are disjoint, increasing, inside the range and carry valid headers; in the gaps no header would have been accepted |
| Sync.EveryByteAccounted | v0.1-alpha/include/minimp3_ex.h:528-565 | every byte of the range lies in exactly one frame or exactly one gap, the one behind the last frame included |
| Sync.BytesAddUp | v0.1-alpha/include/minimp3_ex.h:528-565 | the sizes of the frames, the gaps before them and the rest add up to the range, none of them negative |
| Sync.Id3v2IsStripped | v0.1-alpha/include/minimp3_ex.h:162-192 | a leading ID3v2 tag is taken off whole: header, as many bytes as four bytes of seven bits say, and the footer if there is one |
| Sync.OthersAreKept | v0.1-alpha/include/minimp3_ex.h:162-192 | nothing is taken off the front of any other buffer |
| Sync.Id3v1IsStripped | v0.1-alpha/include/minimp3_ex.h:138-149 | an ID3v1 tag with or without extension is taken off whole, and nothing else |
| Sync.ApeIsStripped | v0.1-alpha/include/minimp3_ex.h:150-159 | an APE tag with a header is taken off whole; one without a header takes 32 bytes of the audio along |
| Decoder.UnitBytes | v0.1-alpha/include/minimp3.h:1752-1780 | over the bytes of a stream: where the side info of a frame lies, two bytes later when it is protected, the back reference in its first bits, and the main data behind it |
| Decoder.Mp3Dec.TryContinue | v0.1-alpha/include/minimp3.h:1720-1727 | the stream continues at the next byte if and only if the header belongs to it and another follows or the buffer ends |
| Decoder.Mp3Dec.Locate | v0.1-alpha/include/minimp3.h:1720-1737 | the frame taken is the continuation, or else the first one found after a reset that empties the reservoir |
| Decoder.Mp3Dec.DecodeLayer3 | v0.1-alpha/include/minimp3.h:1752-1780 | illegal side info resets the decoder; otherwise the reservoir takes its step and success says whether it sufficed |
| Decoder.Mp3Dec.DecodeFrame | v0.1-alpha/include/minimp3.h:1713-1806 | frame found, bytes consumed, frame info, new state and number of samples, for every buffer and state |
| Sync.ChainedIff | v0.1-alpha/include/minimp3.h:1657-1669 | in a row of frames of one stream with something else behind it, exactly those match that have ten followers; before the end of the range one is enough |
| Decoder.RowIsFound | v0.1-alpha/include/minimp3.h:1657-1706 | which frames of such a row a search takes, whether it starts there or earlier |
| Decoder.RowIsContinued | v0.1-alpha/include/minimp3.h:1720-1727 | a decoder that has taken the frame before continues to every frame of such a row but the last, and to that one at the end of the range |
| Decoder.EveryStreamIsTaken | v0.1-alpha/include/minimp3.h:1713-1806 | for every buffer: the calls of a fresh decoder take frames each of which follows from the one before, up to a call that finds nothing; the first is the first one a search finds |
| Decoder.TakenIff | v0.1-alpha/include/minimp3.h:1713-1806 | the first frame determines all the frames taken, whatever the reservoir does |
| Decoder.LocatedInRun | v0.1-alpha/include/minimp3.h:1720-1737 | from whichever found frame decoding starts, the decoder takes the frames that it takes from the start; it continues to one exactly when the one before is usable and no gap follows it |
| Decoder.NothingBehind | v0.1-alpha/include/minimp3.h:1720-1737 | behind the last frame taken nothing is found, from whichever frame decoding started |
| Decoder.CutFrameIsLast | v0.1-alpha/include/minimp3.h:1676-1727 | a header whose frame exceeds the range is not continued to, so that the frame before it is the last one taken |
| Decoder.NoReservoirInLayer12 | v0.1-alpha/include/minimp3.h:1781-1803 | a Layer I or II stream never has anything in the reservoir |
| Decoder.DecoderPerformsRun | v0.1-alpha/include/minimp3.h:1713-1806 | over any buffer the decoder of bytes refines the reservoir run over the frames it takes, from any of them that a search finds |
| Decoder.BackFill | v0.1-alpha/include/minimp3_ex.h:808-853 | the start moves back until 511 bytes of main data, the first frame or illegal side info is met, and stops there |
| Decoder.BackFillStopsOnce | v0.1-alpha/include/minimp3_ex.h:808-853 | this determines the frame |
| Decoder.FillIsStream | v0.1-alpha/include/minimp3_ex.h:847-850 | the bytes the back-fill counts are the main data of the reservoir run |
| Decoder.BackFillFills | v0.1-alpha/include/minimp3_ex.h:808-853 | wherever the back-fill stops, the resynchronisation theorem applies |
| Index.BinarySearch | v0.1-alpha/include/minimp3_ex.h:720-741 | on a well-formed index, for every position > 0: terminates, reads inside the index, never underflows and returns the last entry at or before the position |
| Player.FramesAreIndexed | v0.1-alpha/include/minimp3_ex.h:528-565 | the frames that iteration finds have strictly increasing offsets inside the range |
| Player.IndexIsWellFormed | v0.1-alpha/include/minimp3_ex.h:642-699 | the index has strictly increasing offsets and non-decreasing samples from 0 with repeats at 0 only, whatever the decoder does |
| Player.Mp3Ex.BuildIndex | v0.1-alpha/include/minimp3_ex.h:676-698 | the entries and the length found when mp3dec_load_index is called for every frame |
| Player.Mp3Ex.constructor | v0.1-alpha/include/minimp3_ex.h:642-717 | a stream opened by its tag: all of it from the start offset is pending, without the start delay |
| Player.Mp3Ex.Scanned | v0.1-alpha/include/minimp3_ex.h:701-718 | a stream scanned when it is opened: its index and length, and a fresh decoder |
| Player.Mp3Ex.SeekToByte | v0.1-alpha/include/minimp3_ex.h:749-760 | reading resumes at the byte; the reader stays valid if and only if the byte lies in the range that is read |
| Player.Mp3Ex.ChooseStart | v0.1-alpha/include/minimp3_ex.h:801-855 | decoding restarts two frames before the target, for Layer III further back as the back-fill demands |
| Player.Mp3Ex.AddLeading | v0.1-alpha/include/minimp3_ex.h:863-881 | the skip grows by the samples of the leading frames the index does not count, up to INT_MAX |
| Player.Mp3Ex.Restart | v0.1-alpha/include/minimp3_ex.h:790-881 | the target is the last entry at or before the position; offset and skip count belong to the frame chosen |
| Player.Mp3Ex.SeekToSample | v0.1-alpha/include/minimp3_ex.h:761-894 | from any state of the reader, what will be read after the seek to the position, cut to a known length, plus the start delay: the stream decoded afresh from the frame chosen, without the samples to skip |
| Player.YieldNext | v0.1-alpha/include/minimp3_ex.h:929-980 | what reading yields, call by call: a frame of another rate or layer ends the stream, so does one with other channels and samples to give, and all others give their samples behind those to skip |
| Player.Mp3Ex.DecodeNext | v0.1-alpha/include/minimp3_ex.h:935-973 | decoding one more frame, dropping samples or counting an undecodable frame, does not change what will be read |
| Player.Mp3Ex.ReadFrame | v0.1-alpha/include/minimp3_ex.h:896-988 | the next samples of what is left, at most `max`; fewer only at the end of a frame or of the stream, none only at the end |
| Player.Mp3Ex.Read | v0.1-alpha/include/minimp3_ex.h:990-1014 | exactly the first n samples of what is left; after a short read nothing is left; cur_sample never passes a detected length |
| Player.ReadInTwo | v0.1-alpha/include/minimp3_ex.h:990-1014 | of two readers with the same samples left, one that reads m and then n samples gets what the other gets by reading m + n, and both have the same samples left |
| Seeking.DecodePerforms | v0.1-alpha/include/minimp3.h:1713-1806 | the code of mp3dec_decode_frame has the state, the bytes, the frame info and the bit rate of the decoder that the theorems are about, and gives samples exactly of a frame that decodes |
| Seeking.OneFullDecode | v0.1-alpha/include/minimp3.h:1713-1806 | the decoder with its signal processing performs the run from any starting frame |
| Seeking.YieldOfRun | v0.1-alpha/include/minimp3_ex.h:929-980 | what reading yields from any frame of a run, frame by frame |
| Seeking.SkipWholeFrames | v0.1-alpha/include/minimp3_ex.h:954-976 | a skip of whole frames is used up by decodable and undecodable frames alike |
| Seeking.DspMeets | v0.1-alpha/include/minimp3_ex.h:801-807 | two pre-decoded frames bring the signal processing to the state of the run from the start |
| Counting.OwnDecode | v0.1-alpha/include/minimp3.h:1713-1806 | in whatever state a stream has left the decoder, a frame is found where it is and gives its nominal number of samples or none |
| Counting.CountsFromFirst | v0.1-alpha/include/minimp3_ex.h:676-698 | entry t of an index counts the samples of the frames from the first one counted to t: one that gives samples, but no later than the 256th |
| Counting.SameIndexIff | v0.1-alpha/include/minimp3_ex.h:774-798 | two indexes, one built on opening and one on demand say, are equal if and only if both start counting at the same frame |
| Counting.FreshCounted | v0.1-alpha/include/minimp3_ex.h:691-697 | a fresh decoder makes the index count from the first frame that decodes, or from the 256th |
| Counting.CountedInTime | v0.1-alpha/include/minimp3_ex.h:774-798 | whatever a decoder has left over, the index counts no later than from the first frame that decodes |
| Accuracy.LeadingCounts | v0.1-alpha/include/minimp3_ex.h:863-881 | the leading frames add exactly the samples the index does not count |
| Accuracy.ChoiceExists | v0.1-alpha/include/minimp3_ex.h:798-862 | every position after 0 has a target frame and a frame decoding restarts from |
| Accuracy.ChoosesOne | v0.1-alpha/include/minimp3_ex.h:798-862 | it has only one of each |
| Accuracy.SeekYields | v0.1-alpha/include/minimp3_ex.h:744-894 | decoding from the frame a seek chooses, without the samples it counts, yields the continuous stream from the position on, early by the samples the index counts before the first frame that decodes and late by those of the frames missing from it before the restart |
| Exactness.IndexIsFit | v0.1-alpha/include/minimp3_ex.h:676-741 | the index of the frames found in any stream is fit for the binary search |
| Exactness.NearIsReachable | v0.1-alpha/include/minimp3_ex.h:856-881 | when no frame is missing the samples to drop fit an int for every position of up to 2,146,896,127 |
| Exactness.SeekIsExactAt | v0.1-alpha/include/minimp3_ex.h:744-894 | in any stream, a seek to a position is exact if and only if the samples counted too early and those missing cancel out, or nothing is left |
| Exactness.GappedSeekIff | v0.1-alpha/include/minimp3_ex.h:744-894 | with an index that counts from the first frame that decodes, a seek is exact if and only if no frame before its restart is missing from the index, or nothing is left |
| Exactness.FreshIndexIff | v0.1-alpha/include/minimp3_ex.h:691-697 | the index of a scanned stream counts from the first frame that decodes, and all seeks are exact, if and only if one of the first 256 frames decodes |
| Exactness.SeekIsExactIff | v0.1-alpha/include/minimp3_ex.h:744-894 | with an index built in any state, all seeks of a reader with a start delay are exact if and only if the index counts from the first frame that decodes, or the stream ends before the delay does |
| Exactness.OpenYields | v0.1-alpha/include/minimp3_ex.h:954-976 | what a reader just opened yields: frames that fail use up their part of the start delay |
| Exactness.OpenAgreesAt | v0.1-alpha/include/minimp3_ex.h:744-976 | in any stream, exactly when reading on from the opening gives at a position what a seek to it gives |
| Exactness.OpenAgreesIff | v0.1-alpha/include/minimp3_ex.h:744-976 | exactly when it does so at all positions, in terms of the delay that failing frames use up and the frame from which the index counts |
| Exactness.ScanCountsSamples | v0.1-alpha/include/minimp3_ex.h:676-697 | the length found by a scan against the samples that reading yields, in any stream: too large by the frames counted too early, too small by those missing, and right if and only if there are as many of both |
| Playback.ReadAfterSeek | v0.1-alpha/include/minimp3_ex.h:744-1014 | seek to a position, then read n, on a reader in any state of any such stream: the continuous stream from the position plus the start delay, early by what the index lost and late by what it misses, cut to the detected length |
| Playback.VisitedIsOwn | v0.1-alpha/include/minimp3_ex.h:896-1014 | whatever is read from the start on, the decoder is left in a state for which these theorems hold |
| Playback.SeekAfterReading | v0.1-alpha/include/minimp3_ex.h:744-1014 | on a reader opened by its tag, after any read, a seek is exact when the first frame decodes and none is missing from the index before the restart |
| Playback.Play | v0.1-alpha/include/minimp3_ex.h:642-1014 | a buffer is opened, read, sought in and read again: both reads in terms of the continuous stream |
| Playback.LoadDecodesAll | v0.1-alpha/include/minimp3_ex.h:432-524 | the frames that a load decodes, joined, are the continuous stream |
| Playback.LoadAgreesIff | v0.1-alpha/include/minimp3_ex.h:490-976 | exactly when dropping the delay from a load and letting a reader drop it give the same samples |
| Playback.LoadAndOpenTagged | v0.1-alpha/include/minimp3_ex.h:314-718 | a buffer with such a tag, loaded and opened: both skip (delay + 529) samples a channel and keep what is left of n frames without the padding |
| Playback.LoadAndOpen | v0.1-alpha/include/minimp3_ex.h:314-1014 | a whole load and a read after opening the same buffer, both in terms of the continuous stream |
| Witness.HypothesesHold | v0.1-alpha/include/minimp3_ex.h:744-1014 | concrete streams, any sequence of three kinds of frames with or without a frame cut short behind them, on which the hypotheses about streams hold |
| Witness.RestartIsExercised | v0.1-alpha/include/minimp3_ex.h:798-881 | a seek into the sixth frame of one of them: the restart fails on its first frame and is in step from the next one on |
| Witness.ReservoirsDiffer | v0.1-alpha/include/minimp3.h:1212-1236 | a stream, byte by byte, for which the reservoirs differ after 511 bytes |
| Witness.StaleIndexDiffers | v0.1-alpha/include/minimp3_ex.h:774-798 | streams for which an index built on demand after any reading differs from that of a scan; seeks with it are not exact and do not agree with the opening, those with the index of the scan are exact |
| Witness.DelayHidesStaleIndex | v0.1-alpha/include/minimp3_ex.h:744-976 | on the same streams, exactly which start delays make these seeks exact and agree with the opening all the same |
| Witness.LateStartIsMiscounted | v0.1-alpha/include/minimp3_ex.h:691-697 | a stream of 256 illegal frames and a good one, of which the scan counts one frame too many: seeks are not exact, and do not agree with the opening although there is no delay |
| Witness.GapMakesSeeksLate | v0.1-alpha/include/minimp3_ex.h:676-894 | two rows of frames with zeros between them: behind the gap seeks are late by the nine frames that the index misses, and the scanned length is too small by as many |
| Witness.PlayIsPossible | v0.1-alpha/include/minimp3_ex.h:642-1014 | what `Playback.Play` and `Playback.LoadAndOpen` ask for holds of these buffers, for every position in reach |
| Witness.OpeningDiffers | v0.1-alpha/include/minimp3_ex.h:744-976 | streams on which a failing first frame uses up the start delay: the opening agrees with the seeks exactly when there is no delay or it covers the whole stream |
| Witness.ByteSeekPassesTheEnd | v0.1-alpha/include/minimp3_ex.h:749-760 | a file with an ID3v1 tag and a byte position for which the size left wraps around |
| Opening.OpenBuf | v0.1-alpha/include/minimp3_ex.h:642-718 | what opening a buffer finds: the first frame gives kind, tag, start, delay and length, and all frames are scanned exactly when asked to and no length is announced |
| Load.ReadTag | v0.1-alpha/include/minimp3_ex.h:214-264 | frame count, delay and padding of a Xing/Info tag exactly when its announced fields fit the frame |
| Load.CheckVbrTag | v0.1-alpha/include/minimp3_ex.h:194-264 | the tag is looked for behind header, checksum and side info; every read lies inside the frame |
| Load.TagIsRead | v0.1-alpha/include/minimp3_ex.h:214-264 | a frame count on four bytes, and delay and padding on twelve bits each, are read back as they are written |
| Load.NoTagIff | v0.1-alpha/include/minimp3_ex.h:214-264 | exactly when a frame is taken to hold no tag: no text, or announced fields or an extension that do not fit |
| Load.SilenceMayHoldTag | v0.1-alpha/include/minimp3_ex.h:194-220 | in a Layer III frame with zeros for its side info the tag is looked for behind them |
| Load.UncountedIsSkipped | v0.1-alpha/include/minimp3_ex.h:221-223 | a tag without a frame count is skipped and announces nothing |
| Load.PlainTagIsPlanned | v0.1-alpha/include/minimp3_ex.h:388-430 | a tag with a frame count alone: all samples of these frames, from the next frame on |
| Load.TagIsPlanned | v0.1-alpha/include/minimp3_ex.h:388-430 | a tag with delay and padding: (delay + 529) samples a channel are skipped, and skip, length and padding make up all samples of the frames announced if and only if they fit |
| Load.FileInfo.Append | v0.1-alpha/include/minimp3_ex.h:490-508 | the kept samples grow by those of the frame behind the skip |
| Load.DecodeAll | v0.1-alpha/include/minimp3_ex.h:432-524 | there is always room for a maximal frame after one doubling, samples are skipped only while none are kept, and the result is the decoded frames joined, without the delay, cut to a detected length, with the average of their bit rates |
| Load.DropFromFrames | v0.1-alpha/include/minimp3_ex.h:490-508 | dropping while frames are decoded is dropping from the joined frames |
| Load.AnnouncedAddsUp | v0.1-alpha/include/minimp3_ex.h:400-410 | delay, length and padding make up the samples announced exactly when delay and padding fit into them |
| Load.MakePlan | v0.1-alpha/include/minimp3_ex.h:388-430 | where decoding starts, what is skipped and the announced length |
| Load.KindIs | v0.1-alpha/include/minimp3_ex.h:398-400 | channels, rate and layer of a stream over the bytes of the header found first |
| Load.LoadBuf | v0.1-alpha/include/minimp3_ex.h:314-526 | error code, samples, kind and average bit rate of a whole load, for every buffer |
| Reorder.ReorderedAt | v0.1-alpha/include/minimp3.h:995-1010 | output[base + 3i + k] = input[base + k * len + i] in every band |
| Reorder.ReorderedTail | v0.1-alpha/include/minimp3.h:995-1010 | data behind the last band stays where it is |
| Reorder.SameSamples | v0.1-alpha/include/minimp3.h:995-1010 | the multiset of samples is preserved |
| Reorder.ReorderIsUndone | v0.1-alpha/include/minimp3.h:995-1010 | the reordering has an inverse |
| Reorder.InterleaveBand | v0.1-alpha/include/minimp3.h:1002-1007 | one band is interleaved into the scratch buffer, which changes nowhere else |
| Reorder.ReorderInPlace | v0.1-alpha/include/minimp3.h:995-1010 | the buffer is reordered in place; the scratch buffer changes only below the band total |
| Compositor.ChannelFades | v0.1-alpha/API/libatmasurf.c:108-121 | a channel goes from its top to its bottom value within bounds, each row rounded up from the straight line as C's division of a negative number does |
| Compositor.GradientFades | v0.1-alpha/API/libatmasurf.c:95-127 | the bar starts at 58A858, ends at 145214, and no channel ever gets brighter |
| Compositor.GradientIsStraight | v0.1-alpha/API/libatmasurf.c:95-127 | each channel of each row lies on the straight line between them, rounded up, and the colour is opaque |
| Compositor.TopmostExists | v0.1-alpha/API/libatmasurf.c:239-267 | wherever a layer shows, one of them is topmost by (z_order, slot) |
| Compositor.CompositeIsTopmost | v0.1-alpha/API/libatmasurf.c:239-267 | the picture is the colour of the topmost active, mapped, covering layer with z_order in 0..31, and 0 where there is none |
| Compositor.CompositeIsLocal | v0.1-alpha/API/libatmasurf.c:239-267 | a position depends on nothing but the layers that show there |
| Compositor.SweepStep | v0.1-alpha/API/libatmasurf.c:251-266 | one step of the sweep replaces the topmost layer so far exactly where the slot's layer shows at this z-order |
| Compositor.Ctx.constructor | v0.1-alpha/API/libatmasurf.c:33-61 | a context with a cell for each position and 32 empty slots |
| Compositor.Ctx.CopyRow | v0.1-alpha/API/libatmasurf.c:140-181 | a clipped memcpy, in bounds of source and destination, copies exactly the visible part of a row |
| Compositor.Ctx.FillRow | v0.1-alpha/API/libatmasurf.c:191-221 | a title row is filled exactly where it is visible |
| Compositor.Ctx.DrawLayer | v0.1-alpha/API/libatmasurf.c:129-222 | an active mapped layer paints each visible position it covers: gradient in the first min(16, h) rows of an APP layer, its pixel elsewhere |
| Compositor.Ctx.Compose | v0.1-alpha/API/libatmasurf.c:239-267 | for every table of layers the buffer equals the per-pixel definition |
| Surfaces.SpawnTakesLowest | v0.1-alpha/API/libatmasurf.c:301-360 | a spawned layer gets the lowest free slot; the other layers stay as they are |
| Surfaces.SpawnGivesWhatIsAsked | v0.1-alpha/API/libatmasurf.c:301-360 | the new layer has the rectangle, z-order, kind and descriptor of its request, and until its client draws all its pixels are 0 |
| Surfaces.SpawnFailsIff | v0.1-alpha/API/libatmasurf.c:280-360 | exactly when a spawn fails |
| Surfaces.DestroyRemoves | v0.1-alpha/API/libatmasurf.c:363-394 | a destroy succeeds if and only if the id is live, and removes that id only |
| Surfaces.SpawnThenDestroy | v0.1-alpha/API/libatmasurf.c:269-394 | spawning and then destroying a layer, whatever its client drew, restores the table and the picture at every position |
| Surfaces.SpawnChangesItsRectangle | v0.1-alpha/API/libatmasurf.c:239-360 | a new layer changes the picture in its rectangle only, and nowhere if its z-order is not in 0..31 |
| Surfaces.SpawnShows | v0.1-alpha/API/libatmasurf.c:239-360 | the picture after a spawn, from the request alone: the pixels its client draws, or the title bar of an APP layer, wherever no layer of greater z-order (or the same and a later slot) shows; the picture before elsewhere |
| Surfaces.ShowNew | v0.1-alpha/API/libatmasurf.c:239-413 | spawning, drawing and asking for the buffer shows exactly this, cell by cell |
| Surfaces.ShowFirst | v0.1-alpha/API/libatmasurf.c:269-427 | on a display of the size asked for: a buffer of that size with the first layer where it was asked for, and 0 elsewhere |
| Surfaces.IdsOverRuns | v0.1-alpha/API/libatmasurf.c:224-427 | after any calls the ids clients hold are the live ones, distinct, in 0..31, and as many as successful spawns less successful destroys |
| Surfaces.Display.SpawnLayer | v0.1-alpha/API/libatmasurf.c:269-361 | the call in place, with the context made on the first spawn |
| Surfaces.Display.DestroyLayer | v0.1-alpha/API/libatmasurf.c:363-394 | the call in place |
| Surfaces.Display.SetDisplaySize | v0.1-alpha/API/libatmasurf.c:415-427 | the size changes only before there is a context |
| Surfaces.Display.GetLayerCount | v0.1-alpha/API/libatmasurf.c:224-237 | the number of live ids |
| Surfaces.Display.GetCompositeBuffer | v0.1-alpha/API/libatmasurf.c:396-413 | null without a context, else width * height cells that show the picture |
| Tunnel.TakenIsPrefix | v0.1-alpha/API/libatmchtn.c:39-63 | under a legal order of effects the received messages are the first ones accepted, in order, and at most 255 are pending |
| Tunnel.FullAndEmpty | v0.1-alpha/API/libatmchtn.c:43-56 | the two index comparisons hold exactly for a full and for an empty queue |
| Tunnel.StepKeeps | v0.1-alpha/API/libatmchtn.c:39-63 | every step of either side keeps the invariant: pending slots hold the accepted messages, a half-written slot is none of them, a half-read one is the oldest |
| Tunnel.EveryRunIsLinearizable | v0.1-alpha/API/libatmchtn.c:39-63 | under every interleaving each call takes effect once between call and return, as a queue of capacity 255 allows it, with the reply this calls for: nothing lost, torn or duplicated; "full" at the sender's load of head, "empty" at the receiver's load of tail |
| Tunnel.WaitFree | v0.1-alpha/API/libatmchtn.c:39-63 | each side finishes in a bounded number of its own steps whatever the other does |
| Tunnel.PayloadAt | v0.1-alpha/API/libatmchtn.c:58-59 | a message is its text up to the first NUL, 63 bytes at most, and zeros |
| Tunnel.ChatTunnel.constructor | v0.1-alpha/API/libatmchtn.c:20-23 | a new tunnel is empty |
| Tunnel.ChatTunnel.Send | v0.1-alpha/API/libatmchtn.c:51-63 | undisturbed: false exactly when 255 messages are pending, else the payload is appended to them |
| Tunnel.ChatTunnel.ReceiveFromFriend | v0.1-alpha/API/libatmchtn.c:39-49 | undisturbed: false exactly when nothing is pending, else the oldest message fills the first 64 bytes of the caller's buffer |
| Line.StartsAndEnds | v0.1-alpha/API/libfbdev.c:37-58 | the points run from the first endpoint to the second |
| Line.StepsAreAdjacent | v0.1-alpha/API/libfbdev.c:47-56 | each point is one step along the longer axis and at most one along the other from the one before |
| Line.WithinHalfAPixel | v0.1-alpha/API/libfbdev.c:37-58 | no point is more than half a pixel off the ideal line |
| Line.OneStep | v0.1-alpha/API/libfbdev.c:47-56 | the two comparisons with the running error make exactly the step to the next nearest point |
| Line.FbDev.DrawPix | v0.1-alpha/API/libfbdev.c:30-35 | the pixel changes if it is on the screen, and nothing else does |
| Line.FbDev.DrawLine | v0.1-alpha/API/libfbdev.c:37-58 | for all endpoints: terminates after max(abs dx, abs dy) + 1 points, the k-th being the nearest point; exactly those on the screen take the colour |
| Arena.MemoryArena.Alloc | v0.1-alpha/src/pthread/avm.c:20-29 | the block is aligned, and inside the arena if and only if the request is no larger than the arena |
| Arena.RoundedCovers | v0.1-alpha/src/pthread/avm.c:21 | the rounded size covers the request unless the addition wraps |
| Arena.BlocksInBounds | v0.1-alpha/src/pthread/avm.c:20-29 | in any run of fitting requests every block is aligned and in bounds |
| Arena.BlockSurvives | v0.1-alpha/src/pthread/avm.c:20-29 | a block of size s is untouched by later blocks of total T and largest size m while T + m + s <= ARENA_SIZE + 8, across the wrap |
| Arena.SafeIff | v0.1-alpha/src/pthread/avm.c:20-29 | blocks of at most m bytes and T in all leave every block of s bytes alone if and only if T + m + s <= ARENA_SIZE + 8, where m counts up to half of the arena beside the block |
| Utf8.DecodeInvertsEncode | v0.1-alpha/API/libatmnls.c:9-39 | an encoded scalar value is read back, advancing by its encoded length |
| Utf8.RoundTrip | v0.1-alpha/API/libatmnls.c:9-39 | reading an encoded text returns its code points one by one and then 0 |
| Utf8.ProgressIff | v0.1-alpha/API/libatmnls.c:9-39 | for every text: a call advances if and only if the announced sequence ends before the NUL |
| Utf8.OthersAreReplaced | v0.1-alpha/API/libatmnls.c:9-39 | a byte that starts no sequence is read as U+FFFD and passed over; a sequence that the NUL cuts short is read as U+FFFD without being passed over |
| Utf8.SequenceIsRead | v0.1-alpha/API/libatmnls.c:9-39 | any other sequence, overlong or with wrong later bytes, is read for the bits behind its length marks |
| Utf8.Cursor.UnicodeTF8 | v0.1-alpha/API/libatmnls.c:9-39 | the code point and the new position, for every NUL-terminated text |
| Utf8.LoopEndsIff | v0.1-alpha/API/libfbdev.c:211-213 | for every text: a caller's loop ends if and only if no position it gets to has a sequence cut short by the end |
| Utf8.Cursor.ReadAll | v0.1-alpha/API/libfbdev.c:211-213 | for every such text the loop terminates and gives what the calls return, up to the first 0 |
| Utf8.ReadsEncoding | v0.1-alpha/API/libfbdev.c:211-213 | the encoding of a text is one, and the loop gives exactly its code points |

## Left out

- Signal processing of minimp3 (dequantisation, stereo, IMDCT, synthesis) and the Huffman tables: floating point and constant data; `Seeking.Dsp` is any deterministic function of its state, the frame and the main data. `Seeking.TwoFrameMemory`, that nothing older than two frames is remembered, is what MINIMP3_PREDECODE_FRAMES relies on and is assumed of it.
- Layer I and II decoding: any function that says whether the frame was read past its end.
- Bits read by the Huffman decoder: taken to be those that part2_3_length announces, which `L3_huffman` restores on return.
- Accuracy.SeekYields: is about streams of one kind whose frames all decode from some frame on when they are read from the start; up to that frame no bytes lie between frames and none is missing from the index. When the back-fill passes a gap, the frames decoded instead of those it has counted are asked to fill the reservoir, too (`Accuracy.FillsToo`); otherwise what is read right behind the gap may differ. The samples to drop fit an int, as `to_skip` does.
- Playback.ReadAfterSeek: is about the same streams; bytes between where the reader starts and its first frame are allowed when that frame decodes.
- Playback.Play: is about the same streams, and asks that the frames which iterating finds are among those that the decoder takes.
- Exactness.SeekIsExactIff: is about indexes from which no frame is missing; `Exactness.SeekIsExactAt` and `Exactness.GappedSeekIff` are about all.
- Exactness.OpenAgreesIff: likewise; `Exactness.OpenAgreesAt` is about all.
- Decoder.RowIsFound: is not about free format, where a search also asks for two headers at the same distance.
- Reservoir.Store.Restore: takes frames of at most 2304 bytes of main data, the size of the scratch buffer.
- Sync.FindFrame: starts with the free-format length zeroed, as its callers do, except mp3dec_detect_buf, which passes an uninitialised variable and is not modelled.
- Player.Source.HeaderSamples: a header cut short at the end of the buffer counts no samples, where the source reads on beyond the buffer.
- Player.Mp3Ex.BuildIndex: takes the frames that `Opening.OpenBuf` has found from the start offset on; the source iterates over the buffer from there again, stripping tags anew.
- Opening.OpenBuf: gives no reader for a buffer without frames, where the source gives one that reads nothing.
- Load.DecodeAll: the callback for progress and the failure of realloc are not modelled.
- Callback I/O, memory-mapped and stdio files, mp3dec_detect and error codes for null parameters: plumbing around the same logic.
- Tunnel: creation and connection are system calls; loads and stores are taken to be sequentially consistent, which acquire and release give for one sender and one receiver. A message is copied byte by byte in ascending order.
- Compositor.Ctx: the shared pixel memory of a layer is a value in its slot; clients write to it between compositions (`Surfaces.Paint`), not during one.
- Surfaces.Display.SpawnLayer: descriptor, mapping and allocation come from the system and are parameters; the AutixSurf header with the layer structure is not part of the repository and so not part of this model.
- AutixSurf_Destroy: never called by the layer calls.
- Line.FbDev: the stride is taken to be a multiple of four bytes that covers a row; sums such as 2 * err are taken to fit an int.
- Utf8.Cursor.UnicodeTF8: the shaping call for lead bytes from 0xF0 on is left out; it has no effect on the text.
- Arena: memory beyond the arena that a larger request would be given is not modelled; `Arena.MemoryArena.Alloc` says when this happens.
- Text, buttons, windows, triangles, images and GIFs, libwhike, loader, session and power services, kernel modules, and the JSON, TLS and video wrappers: user interface, I/O or thin layers over other libraries.
