# A model of the libjpeg-turbo 1.4.0 compressor and its arithmetic decoder

This project models, in Dafny 4.11, the coding core of the libjpeg-turbo 1.4.0 that the repository carries
under `app/src/main/jni/libjpeg-turbo-1.4.0`, and proves properties of the model. The standard the program
implements is ITU-T T.81 (ISO/IEC 10918-1). `dafny verify dfyconfig.toml` checks everything; nothing of the
original program is executed.

Code that changes state step by step is modelled by classes with the same fields and by methods with the same
loops and branches. Each such method is proved against a pure specification, and the laws are lemmas about the
specification.

**The arithmetic entropy codec** (`jcarith.c`, `jdarith.c`, `jaricom.c`; annexes D, F.1.4, F.2.4 and G.1.3).
`Aritab` and `AritabEstimates` are the probability table, and `ArithSpec` is exact interval arithmetic.
`ArithRegisters`, `ArithFinish` and `ArithEncoder` refine it to the registers, the delayed byte and the two counters
of the encoder; `ArithDecoder` refines it to the registers of the decoder and the byte source with its markers;
`ArithCodec` puts the two together for arbitrary decisions.
`ArithModel` and `ArithScan` are the binary decisions of coefficients and the parser for them;
`ArithMcuEncoder` and `ArithMcuDecoder` are the MCU routines; `ArithSegments`, `ArithScanEncoder`,
`ArithScanDecoder`, `ArithRoundTrip`, `ArithWholeScan` and `ArithSequential` are whole scans with restart
markers; `ArithBins` bounds the statistics bins in use, and `ArithFlow` says of every decision which bin it is
made in and what it says, by the flow charts of the standard. `ScanTransfer` runs a scan of any kind from
coefficient arrays to coefficient arrays, through both coefficient controllers; `ImageRoundTrip` is the
sequential case.

**Scan scripts** (`jcmaster.c`, `jcparam.c`). `Progression` says what a script must satisfy by the history of
each coefficient and proves the validator; `SimpleProgression` is the script generator; `DecoderProgression` is
the decoder's record of a script; `ProgressiveRoundTrip` runs all scans of a script from coefficient arrays to
coefficient arrays. A padding block, which interleaved DC scans send and the other scans of its component do
not, is followed along; what is concluded is about the blocks of the image.

**Huffman coding** (`jchuff.c`, `jcphuff.c`; annexes C, F.1.2, G.1.2 and K.2). `HuffmanCost`, `HuffmanDepth`,
`HuffmanTree` and `HuffmanTable` are the construction of the optimal table; `HuffmanCodes` the canonical code;
`HuffmanBits` the two bit writers; `HuffmanFlow` says which symbols and bits are sent; `HuffmanSymbols`,
`HuffmanSequential`, `HuffmanScan`, `HuffmanTwoPass` and `HuffmanOutput` are the two passes of the sequential
coder, `HuffmanDecoding` a reader of its bits and `HuffmanRoundTrip` all of them in a row; `HuffmanEobRuns`, `HuffmanProgressive`, `HuffmanProgressiveScan`,
`HuffmanTwoPassProgressive`, `HuffmanProgressiveDecoding` and `HuffmanProgressiveRoundTrip` are the same for the
progressive coder.

**Pass control** (`jcmaster.c`, `jcapimin.c`). `PassControl` is the multi-pass state machine with its trace of
events.

**Buffering** (`jcprepct.c`, `jcmainct.c`, `jcapistd.c`, `jccoefct.c`, `jctrans.c`, `jdcoefct.c`).
`PrepControl` and `MainControl` follow the rows from the application to the iMCU rows; `McuGeometry` and
`McuSequence` say which MCUs a scan has, `McuContents` what is in them and `McuPositions` where their blocks
lie; `CoefControl` sends them and `CoefConsume` puts them back.

**Division by reciprocal** (`jcdctmgr.c`). `Reciprocal` is the exactness of the division and of the rounding.

Conventions. Integers are unbounded except where a width matters, and there it is written out (`Word`,
`Shl32`, `ToCoef`, `Int32`). `jpeg_natural_order` is any permutation of the 64 positions that fixes the first.
An error exit is a result or a precondition. A ghost field says what registers, counters or outputs stand for.
Suspension by the entropy coder or the compressor is any finite pattern of refusals.

Places where the code does less than one might expect, with the exact condition:

- The arithmetic coder's magnitude categories end at 32768. A DC difference beyond that (which only blocks with
  DC values more than 32768 apart can have, as in `ArithScan.FarApart`) is written but not read back;
  `ArithModel.DcParsed`, `ArithScan.SegmentParsed` and `ArithBins.SegmentBins` state the condition in both
  directions. Every point transform of at least one bit avoids it (`ProgressiveRoundTrip.TransformedFits`).
- `optimize_coding` together with `arith_code` is not resolved by the master control, although
  `jcarith.c:831-834` counts on that; such a run ends in the error exit, and `PassControl.Compress` states
  exactly which runs do.
- jpeg_gen_optimal_table gives up on a code of more than 32 bits before it limits the lengths.
  `HuffmanTwoPass.OptimizeTable` states exactly when. The comment at `jchuff.c:923-924` hopes that this cannot
  happen: `HuffmanDepth.FewCountsShortCodes` and `HuffmanTwoPass.FewItemsFit` show that fewer than nine million
  symbols never get there, `HuffmanDepth.LongCodeReached` that fewer than 15 million can.
- The decoder's check of the scan order is weaker than the compressor's: it does not notice a first scan of
  coefficients that are complete. `DecoderProgression.ExpectedIsInOrder` states the difference.

## Model

| member | source | states |
|---|---|---|
| Aritab.Unpack | app/src/main/jni/libjpeg-turbo-1.4.0/jaricom.c:28-153 | Shifting and masking a packed table entry the way both coders do gives back Qe and, by exclusive or with the statistics byte, exactly the byte after an LPS and the byte after an MPS, sense switch included. |
| AritabEstimates.EstimatesAdapt | app/src/main/jni/libjpeg-turbo-1.4.0/jaricom.c:28-153 | In every row of the table Qe falls after a renormalized MPS, or is already 1 and stays; after an LPS it rises if and only if the sense of the MPS is not exchanged. |
| Bits.UnstuffStuff | app/src/main/jni/libjpeg-turbo-1.4.0/jdarith.c:119-139 | What a reader finds in stuffed data, up to the marker that follows, are the data bytes. |
| Bits.StuffedHasNoMarker | app/src/main/jni/libjpeg-turbo-1.4.0/jcphuff.c:253-258 | In stuffed data every 0xFF byte is followed by 0x00. |
| Bits.StuffedLength | app/src/main/jni/libjpeg-turbo-1.4.0/jcphuff.c:253-258 | Stuffing adds exactly one byte for each 0xFF byte. |
| ArithSpec.DecodesIffInside | app/src/main/jni/libjpeg-turbo-1.4.0/jdarith.c:107-184 | Exact interval arithmetic: reading a byte string (continued with zeros) with a list of bins gives a list of bits if and only if the string denotes a point of the interval those decisions code. |
| ArithSpec.InNarrow | app/src/main/jni/libjpeg-turbo-1.4.0/jcarith.c:236-262 | A decision's subinterval contains exactly the points of the interval that lie on its side of the split, conditional exchange of the symbols included. |
| ArithFlow.SubintervalSizes | app/src/main/jni/libjpeg-turbo-1.4.0/jcarith.c:236-262 | The two decisions divide the interval into a lower part of A - Qe and an upper part of Qe; the MPS has the greater part, and of equal parts the lower. |
| ArithFlow.EstimateFollowsRenormalization | app/src/main/jni/libjpeg-turbo-1.4.0/jcarith.c:248-260 | The statistics byte of the bin changes if and only if the interval falls below 0x8000, and then to the row's next index after an LPS or MPS, with the sense exchanged only after an LPS in a row that says so; no other bin changes. |
| ArithFlow.FirstEstimates | app/src/main/jni/libjpeg-turbo-1.4.0/jcarith.c:855-926 | Coding starts from the interval [0, 0x10000), all bins from Qe 0x5a1d with MPS 0; only the fixed bin has itself as successor. |
| ArithRegisters.StartRepresents | app/src/main/jni/libjpeg-turbo-1.4.0/jcarith.c:888-894 | The initial registers stand for the whole unit interval. |
| ArithRegisters.NarrowedRepresents | app/src/main/jni/libjpeg-turbo-1.4.0/jcarith.c:236-262 | Narrowing C and A keeps sent bytes, zc zeros, buffer, sc bytes 0xFF and C together the exact lower end of the interval. |
| ArithRegisters.DoubledRepresents | app/src/main/jni/libjpeg-turbo-1.4.0/jcarith.c:264-267 | Shifting both registers keeps the exact lower end. |
| ArithRegisters.ByteOutRepresents | app/src/main/jni/libjpeg-turbo-1.4.0/jcarith.c:268-310 | Moving the top of C behind the delayed bytes keeps the exact lower end, carry or not. |
| ArithRegisters.CarryIsAbsorbed | app/src/main/jni/libjpeg-turbo-1.4.0/jcarith.c:268-280 | At byte-out c >> 19 is at most 0x11F, and if it exceeds 0xFF there is a delayed byte and it is not 0xFF. |
| ArithRegisters.NoCarryBeforeFirstByte | app/src/main/jni/libjpeg-turbo-1.4.0/jcarith.c:268-280 | While buffer is -1 the interval ends at or below the carry bit. |
| ArithRegisters.FinishedPoint | app/src/main/jni/libjpeg-turbo-1.4.0/jcarith.c:134-195 | The bytes sent at termination denote a point of the final interval, and no byte string that does is shorter. |
| ArithFinish.Shortest | app/src/main/jni/libjpeg-turbo-1.4.0/jcarith.c:142-149 | No byte string for a point of an interval is shorter than the trimmed string for the multiple of 0x10000 (else 0x8000) in it. |
| ArithEncoder.Encoder.InitRegisters | app/src/main/jni/libjpeg-turbo-1.4.0/jcarith.c:888-896 | The registers stand for the exact initial coder; nothing of the segment has been sent. |
| ArithEncoder.Encoder.ByteOut | app/src/main/jni/libjpeg-turbo-1.4.0/jcarith.c:268-310 | The new registers, sc, zc, buffer and output again stand for the same exact interval, eleven bits are replaced by eight. |
| ArithEncoder.Encoder.Renormalize | app/src/main/jni/libjpeg-turbo-1.4.0/jcarith.c:264-312 | The registers stand for the renormalized exact interval. |
| ArithEncoder.Encoder.ArithEncode | app/src/main/jni/libjpeg-turbo-1.4.0/jcarith.c:220-313 | One call is one step of the exact coder: interval, renormalization and statistics, for either bit value. |
| ArithEncoder.Encoder.FinishPass | app/src/main/jni/libjpeg-turbo-1.4.0/jcarith.c:134-195 | The output is the prior output and stuffed data bytes that denote a point of the coder's interval, in as few bytes as possible. |
| ArithDecoder.Decoder.FetchData | app/src/main/jni/libjpeg-turbo-1.4.0/jdarith.c:115-140 | The next data byte is that of the unstuffed segment, zero once a marker has been met; the marker is remembered. |
| ArithDecoder.Decoder.Renormalize | app/src/main/jni/libjpeg-turbo-1.4.0/jdarith.c:113-150 | C, A and ct with its floating cut point track the exact interval and the bytes read; two bytes are read before the first decision. |
| ArithDecoder.DecisionTracked | app/src/main/jni/libjpeg-turbo-1.4.0/jdarith.c:152-184 | The comparison of c with a << ct is the exact point comparison, and the registers after it track the exact subinterval: 0 <= c < a << ct. |
| ArithDecoder.Decoder.ArithDecode | app/src/main/jni/libjpeg-turbo-1.4.0/jdarith.c:107-184 | One call returns the bit of the exact decoder and makes its step, statistics included. |
| ArithDecoder.Decoder.NextMarker | app/src/main/jni/libjpeg-turbo-1.4.0/jdmarker.c:890-933 | Finds the next marker, skipping data and fill bytes. |
| ArithDecoder.Decoder.ReadRestartMarker | app/src/main/jni/libjpeg-turbo-1.4.0/jdmarker.c:1129-1155 | Succeeds if and only if the next marker is the expected restart marker, and then stands behind it. |
| ArithCodec.EncodeAll | app/src/main/jni/libjpeg-turbo-1.4.0/jcarith.c:220-313 | Any sequence of decisions: the output is a stuffed string for a point of the exact final interval, of minimal length. |
| ArithCodec.DecodeAll | app/src/main/jni/libjpeg-turbo-1.4.0/jdarith.c:107-184 | From any input whose data bytes denote such a point, the bits of the decisions are decoded and the decoder ends in the same exact state. |
| ArithCodec.RoundTrip | app/src/main/jni/libjpeg-turbo-1.4.0/jcarith.c:134-313 | Encoding any sequence of decisions from the start state, terminating, and decoding with the same bins gives the same bits whatever marker follows. |
| ArithCodec.BothSides | app/src/main/jni/libjpeg-turbo-1.4.0/jdarith.c:107-184 | The same, and every statistics bin ends equal on both sides. |
| ArithModel.DcParsed | app/src/main/jni/libjpeg-turbo-1.4.0/jdarith.c:532-574 | A coded DC difference is decoded to itself with the encoder's state if and only if its magnitude is at most 32768; any other one takes the bad-code branch. |
| ArithModel.AcParsed | app/src/main/jni/libjpeg-turbo-1.4.0/jdarith.c:582-612 | Coded AC coefficients of a band fill exactly that band, end in the encoder's state and never take a bad-code branch. |
| ArithModel.RefineParsed | app/src/main/jni/libjpeg-turbo-1.4.0/jdarith.c:453-484 | AC refinement: the decoder, starting from the previous approximation, ends with the next one, although it knows only its own last nonzero index. |
| ArithScan.BlockParsed | app/src/main/jni/libjpeg-turbo-1.4.0/jdarith.c:242-615 | Whatever the kind of scan: from the original cut off where earlier scans left it, decoding gives the original cut off at this scan's Al (arithmetic shift for DC, toward zero for AC), and predictions, contexts and statistics agree with the encoder's. |
| ArithScan.BlockOverflow | app/src/main/jni/libjpeg-turbo-1.4.0/jdarith.c:545-555 | A DC difference beyond the magnitude categories makes the decoder give up on the block. |
| ArithScan.FarApart | app/src/main/jni/libjpeg-turbo-1.4.0/jdarith.c:545-555 | An input with such a difference: two blocks of a sequential scan with DC values -32768 and 32767. |
| ArithScan.SegmentParsed | app/src/main/jni/libjpeg-turbo-1.4.0/jdarith.c:497-615 | A segment is read back completely if and only if every DC difference in it can be expressed. |
| ArithBins.SegmentBins | app/src/main/jni/libjpeg-turbo-1.4.0/jcarith.c:52-66 | A segment uses only DC bins 0..48 and AC bins 0..244 if and only if every DC difference in it can be expressed. |
| ArithFlow.ConditioningCategory | app/src/main/jni/libjpeg-turbo-1.4.0/jcarith.c:748-752 | Section F.1.4.4.1.2 by the size of the difference v: zero category if and only if v = 0, or L > 0 and its magnitude is at most 2^(L-1); otherwise large (12 or 16 by sign) if and only if its magnitude is above 2^U, else small (4 or 8). |
| ArithFlow.DcDifference | app/src/main/jni/libjpeg-turbo-1.4.0/jcarith.c:715-733 | A difference is a zero decision in bin S0, or a one there, its sign in S0 + 1 and its magnitude less one from S0 + 2 or S0 + 3 on. |
| ArithFlow.DcMagnitudeDecisions | app/src/main/jni/libjpeg-turbo-1.4.0/jcarith.c:734-757 | The decisions for a magnitude with highest bit e, bin by bin: e ones in bins 20, 21, ..., a zero in bin 20 + e, and the e lower bits, highest first, in bin 34 + e. |
| ArithFlow.AcMagnitudeDecisions | app/src/main/jni/libjpeg-turbo-1.4.0/jcarith.c:515-536 | The decisions for the magnitude of AC coefficient k, bin by bin: bin 3k - 1 twice, then ones and a zero from bin 189 (k <= Kx) or 217 (k > Kx) on, and the lower bits in the bin 14 further on. |
| ArithFlow.LargeMagnitudeBins | app/src/main/jni/libjpeg-turbo-1.4.0/jcarith.c:524-526 | Beyond the first-magnitude bins the decisions of coefficient k lie in AC bins 189..216 if k <= Kx and 217..244 if k > Kx, the first being exactly 189 or 217. |
| ArithFlow.AcDecisions | app/src/main/jni/libjpeg-turbo-1.4.0/jcarith.c:767-813 | From coefficient k on: an end-of-block decision, a zero decision for each zero coefficient, then the next nonzero one with its sign in the fixed bin and its magnitude; at the end one end-of-block decision, none if the band is full. |
| ArithFlow.RefineDecisions | app/src/main/jni/libjpeg-turbo-1.4.0/jcarith.c:631-667 | Refinement, position by position: the same with correction bits in bin 3k - 1 for coefficients sent before, and no end-of-block decision up to the previous scan's last one. |
| ArithFlow.BlockFlow | app/src/main/jni/libjpeg-turbo-1.4.0/jcarith.c:363-816 | What a scan codes of a block, by its Ss, Ah and Al: the difference of the DC values divided by 2^Al rounding down, one bit of them, or the AC coefficients divided by 2^Al rounding toward zero. |
| ArithFlow.RefinedBlockFlow | app/src/main/jni/libjpeg-turbo-1.4.0/jcarith.c:605-630 | An AC refinement codes the coefficients with one bit more than the previous scan left, whose last nonzero one is where end-of-block decisions begin. |
| ArithFlow.NextBlockFlow | app/src/main/jni/libjpeg-turbo-1.4.0/jcarith.c:702-816 | The decisions of a segment are those of its blocks in order, each coded with the predictions and contexts that the blocks before it leave. |
| ArithFlow.DcPrediction | app/src/main/jni/libjpeg-turbo-1.4.0/jcarith.c:716-720 | At every point of a segment the prediction is the transformed DC value of the component's last block and the context the category of the difference coded for it; both are zero before its first block. |
| ArithMcuEncoder.McuEncoder.EncodeDc | app/src/main/jni/libjpeg-turbo-1.4.0/jcarith.c:710-760 | The decisions coded are those of the difference (ArithFlow.DcDifference), and last_dc_val and dc_context are updated to the prediction state that goes with them (ArithFlow.ConditioningCategory). |
| ArithMcuEncoder.McuEncoder.EncodeAc | app/src/main/jni/libjpeg-turbo-1.4.0/jcarith.c:471-540 | The decisions coded are those of the band after the point transform, up to its last nonzero coefficient (ArithFlow.AcDecisions, AcMagnitudeDecisions). |
| ArithMcuEncoder.McuEncoder.EncodeAcRefine | app/src/main/jni/libjpeg-turbo-1.4.0/jcarith.c:605-668 | The decisions coded are the correction bits, zero runs, new signs and end-of-block of the refinement. |
| ArithMcuEncoder.McuEncoder.EncodeBlock | app/src/main/jni/libjpeg-turbo-1.4.0/jcarith.c:363-816 | All five variants: one block codes exactly its decisions and advances the prediction state. |
| ArithMcuDecoder.McuDecoder.DecodePattern | app/src/main/jni/libjpeg-turbo-1.4.0/jdarith.c:566-573 | The magnitude bits are ored in to give the pattern that was coded. |
| ArithMcuDecoder.McuDecoder.DecodeDc | app/src/main/jni/libjpeg-turbo-1.4.0/jdarith.c:527-579 | The in-place decoder of a DC difference is the parser: same value or bad code, same new prediction state, its context the category of the difference (ArithFlow.ConditioningCategory). |
| ArithMcuDecoder.McuDecoder.DecodeAcRefine | app/src/main/jni/libjpeg-turbo-1.4.0/jdarith.c:447-486 | The in-place refinement decoder leaves exactly the block that the parser gives. |
| ArithMcuDecoder.McuDecoder.DecodeBlock | app/src/main/jni/libjpeg-turbo-1.4.0/jdarith.c:242-615 | All five variants in place on a block in natural order are the parser on the block in zigzag order. |
| ArithSegments.ScanRoundTrip | app/src/main/jni/libjpeg-turbo-1.4.0/jdarith.c:191-219 | Whatever marker follows a scan, the decoder finds every restart marker where it is due and recovers every segment. |
| Blocks.SegmentIs | app/src/main/jni/libjpeg-turbo-1.4.0/jcarith.c:691-700 | Segment number i has the MCUs from i times the restart interval on, as many as the interval says or as are left; the number of segments is the number of MCUs divided by the interval, rounded up, and one without an interval. |
| Markers.RestartMarkers | app/src/main/jni/libjpeg-turbo-1.4.0/jcarith.c:320-331 | Between segments m and m + 1 of a scan stands exactly the marker 0xFF, 0xD0 + m mod 8. |
| ArithScanEncoder.ScanEncoder.StartPass | app/src/main/jni/libjpeg-turbo-1.4.0/jcarith.c:823-899 | Statistics, predictions and restart counters as for a scan of which nothing has been sent. |
| ArithScanEncoder.ScanEncoder.EmitRestart | app/src/main/jni/libjpeg-turbo-1.4.0/jcarith.c:320-354 | The segment is terminated, its marker written, and a new segment begins with zeroed statistics and predictions. |
| ArithScanEncoder.ScanEncoder.EncodeMcu | app/src/main/jni/libjpeg-turbo-1.4.0/jcarith.c:681-816 | One MCU more has been given; a restart marker is emitted exactly every restart_interval MCUs. |
| ArithScanEncoder.ScanEncoder.FinishPass | app/src/main/jni/libjpeg-turbo-1.4.0/jcarith.c:134-195 | The output of the scan is the stuffed segments with restart markers numbered modulo 8 between them, each segment a point of the interval of its decisions. |
| ArithScanDecoder.ScanDecoder.StartPass | app/src/main/jni/libjpeg-turbo-1.4.0/jdarith.c:622-724 | Decoder state at the beginning of a scan: nothing read, statistics zeroed. |
| ArithScanDecoder.ScanDecoder.ProcessRestart | app/src/main/jni/libjpeg-turbo-1.4.0/jdarith.c:191-219 | Behind the expected restart marker a new segment begins; otherwise the reader of the whole scan asks for resynchronization too. |
| ArithScanDecoder.ScanDecoder.DecodeMcu | app/src/main/jni/libjpeg-turbo-1.4.0/jdarith.c:497-615 | One MCU more has been decoded in place; after a bad code blocks are left as they are until the next restart. |
| ArithScanDecoder.ScanDecoder.Outcome | app/src/main/jni/libjpeg-turbo-1.4.0/jdarith.c:242-615 | What the MCUs have become is the outcome of reading the scan's data segment by segment. |
| ArithRoundTrip.ScanSurvives | app/src/main/jni/libjpeg-turbo-1.4.0/jdarith.c:242-615 | Data strings for the segments of a scan, as ScanEncoder writes them, are read back by ScanDecoder: originals cut off where earlier scans left them become originals cut off where this scan leaves them, if every DC difference can be expressed. |
| ArithRoundTrip.WrittenAlike | app/src/main/jni/libjpeg-turbo-1.4.0/jcarith.c:546-576 | What is written for some MCUs might have been written for any others that agree in what the scan sees of them: the DC value in a first DC scan, one bit of it in a refinement. |
| ArithRoundTrip.NeverResync | app/src/main/jni/libjpeg-turbo-1.4.0/jdarith.c:191-205 | Before every MCU that starts a segment the decoder finds the restart marker that is due. |
| ArithWholeScan.EncodeScan | app/src/main/jni/libjpeg-turbo-1.4.0/jcarith.c:363-899 | Any MCUs, in any of the five kinds of scan, are written as the stuffed segments of their decisions with restart markers between them. |
| ArithWholeScan.DecodeScan | app/src/main/jni/libjpeg-turbo-1.4.0/jdarith.c:242-724 | From what was written and the originals cut off where earlier scans left them, every MCU is decoded to the originals cut off where this scan leaves them; every restart marker is found, whatever marker follows the scan. |
| ArithSequential.RoundTrip | app/src/main/jni/libjpeg-turbo-1.4.0/jcarith.c:681-899 | There and back for every restart interval and conditioning: the MCUs that come out are those that went in, if the DC differences can be expressed. |
| ArithSequential.SmallDcFits | app/src/main/jni/libjpeg-turbo-1.4.0/jdarith.c:545-555 | DC values within plus or minus 16384 have such differences, in any order and with any restart interval. |
| ScanTransfer.CutMcus | app/src/main/jni/libjpeg-turbo-1.4.0/jdcoefct.c:280-291 | If the arrays hold every visited block cut off at the level of its component, the entropy decoder is handed over the MCUs cut off at these levels. |
| ScanTransfer.TransferScan | app/src/main/jni/libjpeg-turbo-1.4.0/jdcoefct.c:246-316 | One scan of any kind, sent by the transcoder's controller, encoded, decoded and stored by the decoder's controller, with every suspension pattern on either side: the blocks the scan visits are cut off where it leaves them, all others are untouched. |
| ImageRoundTrip.ImageSurvives | app/src/main/jni/libjpeg-turbo-1.4.0/jdcoefct.c:246-316 | For one sequential scan: for every image size, sampling, scan, restart interval and suspension pattern, the arrays of its components are the same again, if the DC differences can be expressed. |
| Progression.Validator.ValidateScript | app/src/main/jni/libjpeg-turbo-1.4.0/jcmaster.c:164-296 | Accepts a script, progressive or sequential, if and only if it is valid by the history of each coefficient; the error names the first bad scan. |
| Progression.ProgressiveScriptRules | app/src/main/jni/libjpeg-turbo-1.4.0/jcmaster.c:180-295 | Validity scan against scan: a progressive script is valid if and only if every scan is well formed (the limits written out), has Ah = 0 for a coefficient no scan before it sends and otherwise sends exactly one bit more than the last scan that does, has some DC bits before AC coefficients, and every component has a DC scan. |
| Progression.SequentialScriptRules | app/src/main/jni/libjpeg-turbo-1.4.0/jcmaster.c:180-295 | A sequential script is valid if and only if its scans are for whole blocks and send every component exactly once. |
| SimpleProgression.ScriptOwner.SimpleProgression | app/src/main/jni/libjpeg-turbo-1.4.0/jcparam.c:467-539 | Fills exactly the number of scans it declares, with the script for the colour space and number of components. |
| SimpleProgression.SimpleScriptValid | app/src/main/jni/libjpeg-turbo-1.4.0/jcparam.c:507-539 | For every number of components the script is valid, progressive, and sends every bit of every coefficient. |
| SimpleProgression.YccScans | app/src/main/jni/libjpeg-turbo-1.4.0/jcparam.c:507-525 | The ten scans of the script for YCbCr, written out. |
| SimpleProgression.FewComponents | app/src/main/jni/libjpeg-turbo-1.4.0/jcparam.c:526-538 | All scans of the other scripts for up to four components, written out. |
| SimpleProgression.ManyComponents | app/src/main/jni/libjpeg-turbo-1.4.0/jcparam.c:526-538 | And for more than four. |
| ProgressiveRoundTrip.TransformedFits | app/src/main/jni/libjpeg-turbo-1.4.0/jdarith.c:286-296 | With a point transform of at least one bit, or where no DC difference is sent, every difference can be expressed. |
| ProgressiveRoundTrip.PaddingCompleted | app/src/main/jni/libjpeg-turbo-1.4.0/jdarith.c:395-422 | A padding block that some DC scans of its component have passed over and others not: there is a DC value for which this scan makes the same decisions and of which the decoder holds the approximation. |
| ProgressiveRoundTrip.StateAfter | app/src/main/jni/libjpeg-turbo-1.4.0/jdarith.c:242-490 | One scan keeps the state of the decoder's arrays in order: blocks of the image are cut off at the levels of their component, padding is at least cut off there, whether the scan visits it or not. |
| ProgressiveRoundTrip.ScriptRoundTrip | app/src/main/jni/libjpeg-turbo-1.4.0/jcmaster.c:221-262 | All scans of a progressive script in order, run through both coefficient controllers and the arithmetic codec with their padding blocks: afterwards the arrays hold every block of the image truncated at the last Al of each coefficient, and no progression warning has been drawn; it stops exactly if a scan's MCU has more than 10 blocks. |
| ProgressiveRoundTrip.SimpleProgressionRoundTrip | app/src/main/jni/libjpeg-turbo-1.4.0/jcparam.c:467-539 | With the script of jpeg_simple_progression the whole image comes back unchanged, for every image, sampling, number of components, conditioning, restart interval and suspension pattern. |
| DecoderProgression.ScanStatus.StartScan | app/src/main/jni/libjpeg-turbo-1.4.0/jdarith.c:651-667 | coef_bits is the last Al of every coefficient; a warning is drawn if and only if a scan comes without its DC scan or with an Ah that was not expected. |
| DecoderProgression.ExpectedIsInOrder | app/src/main/jni/libjpeg-turbo-1.4.0/jdarith.c:651-667 | A scan is in order for validate_script if and only if the decoder does not warn about it, a refinement sends the next bit, and a first scan does not repeat coefficients that are complete. |
| HuffmanCost.MergingIsOptimal | app/src/main/jni/libjpeg-turbo-1.4.0/jchuff.c:872-918 | No lengths with Kraft sum at most one over the used symbols have a smaller weighted total than merging two smallest counts until one is left (counts summing to at most 10^9). |
| HuffmanTree.FindSmallest | app/src/main/jni/libjpeg-turbo-1.4.0/jchuff.c:876-896 | Finds the least count up to the cut-off, the highest index among equals. |
| HuffmanTree.AssignLengths | app/src/main/jni/libjpeg-turbo-1.4.0/jchuff.c:866-926 | The loop over chains linked inside arrays ends with a complete code (Kraft sum one) for exactly the used symbols, of least weighted total among all feasible assignments; its lengths are those of the recursion on merged counts. |
| HuffmanDepth.LongCodesNeedCounts | app/src/main/jni/libjpeg-turbo-1.4.0/jchuff.c:866-926 | A symbol gets a code of n bits only if the counts add up to Fibonacci number n + 2 at least. |
| HuffmanDepth.FewCountsShortCodes | app/src/main/jni/libjpeg-turbo-1.4.0/jchuff.c:920-931 | So counts that add up to less than 9227465 give no code above 32 bits. |
| HuffmanDepth.LongCodeReached | app/src/main/jni/libjpeg-turbo-1.4.0/jchuff.c:920-931 | The error exit that the source takes to be impossible is not: 33 symbols counted as often as the Fibonacci numbers say, fewer than 15 million times in all, give a code of 33 bits. |
| HuffmanDepth.LastGetsLongest | app/src/main/jni/libjpeg-turbo-1.4.0/jchuff.c:864-911 | The reserved symbol 256, counted once, always gets a code of the greatest length of all, whatever the other counts: what the source's removal of one code of the greatest length relies on. |
| HuffmanTable.ShorterExists | app/src/main/jni/libjpeg-turbo-1.4.0/jchuff.c:945-955 | While codes longer than 16 bits are left they come in pairs and a code at least two bits shorter exists, so the search for one ends. |
| HuffmanTable.LimitLengths | app/src/main/jni/libjpeg-turbo-1.4.0/jchuff.c:945-954 | Of all counts of complete codes for as many symbols with no length above 16 that, compared from the shortest length on, do not come after the counts given, the result is the one that comes last; counts within 16 bits are left alone. |
| HuffmanTable.LimitedUnique | app/src/main/jni/libjpeg-turbo-1.4.0/jchuff.c:945-954 | There is only one such result. |
| HuffmanTable.RemovePseudo | app/src/main/jni/libjpeg-turbo-1.4.0/jchuff.c:956-959 | The count of the greatest length in use drops by one, every other count stays, and the Kraft sum is then below one. |
| HuffmanTable.ListSymbols | app/src/main/jni/libjpeg-turbo-1.4.0/jchuff.c:964-976 | Lists exactly the used symbols, once each, by code length, those of one length in ascending order. |
| HuffmanTable.GenOptimalTable | app/src/main/jni/libjpeg-turbo-1.4.0/jchuff.c:846-980 | Fails if and only if the optimal code has a length above 32; otherwise the counts are those of the optimal lengths, limited as above, less one at the greatest, and exactly the used symbols are listed in order. If the optimal code has no length above 16, count k is the number of symbols with optimal length k, less one at the greatest. |
| HuffmanCodes.MakeDerivedTbl | app/src/main/jni/libjpeg-turbo-1.4.0/jchuff.c:214-300 | Accepts a table if and only if its counts fit, its codes fit their lengths with all ones free, and its symbols are distinct and within range; the result is the canonical code. |
| HuffmanCodes.DcTables | app/src/main/jni/libjpeg-turbo-1.4.0/jchuff.c:284-297 | A table accepted for AC coefficients is accepted for DC if and only if its symbols are at most 15. |
| HuffmanCodes.DerivedIsPrefixCode | app/src/main/jni/libjpeg-turbo-1.4.0/jchuff.c:244-299 | Every accepted table gives exactly its symbols a code, no code is a prefix of another, none is all ones. |
| HuffmanCodes.OptimalTableAccepted | app/src/main/jni/libjpeg-turbo-1.4.0/jchuff.c:846-980 | The table that jpeg_gen_optimal_table makes is always accepted; for DC if only symbols up to 15 are used. |
| HuffmanCodes.OptimalLengths | app/src/main/jni/libjpeg-turbo-1.4.0/jchuff.c:846-980 | If the optimal code has no length above 16, every symbol of the table has a code of exactly its optimal length: the order of the list and the counts fit together. |
| HuffmanCodes.CodesAreConsecutive | app/src/main/jni/libjpeg-turbo-1.4.0/jchuff.c:256-277 | The first code of an accepted table is zero, and each code is the one before it plus one, continued with zeros up to its own length. |
| HuffmanBits.LeftWriter.EmitBits | app/src/main/jni/libjpeg-turbo-1.4.0/jcphuff.c:228-263 | Unstuffed output and pending bits are the exact concatenation of the fields; a zero size is the error exit; at most 7 bits stay pending. |
| HuffmanBits.LeftWriter.FlushBits | app/src/main/jni/libjpeg-turbo-1.4.0/jcphuff.c:267-273 | The last byte is padded with ones only. |
| HuffmanBits.RightWriter.EmitBits | app/src/main/jni/libjpeg-turbo-1.4.0/jchuff.c:338-406 | The 32-bit macros: unstuffed output and pending bits are the exact concatenation of the fields. |
| HuffmanBits.RightWriter.FlushBits | app/src/main/jni/libjpeg-turbo-1.4.0/jchuff.c:452-470 | The last byte is padded with ones only. |
| HuffmanSymbols.BlockReadBack | app/src/main/jni/libjpeg-turbo-1.4.0/jchuff.c:477-585 | The symbols and extra bits of a block determine the block: a reader after figures F.13 and F.16 of ITU-T T.81 gets it back whatever follows. |
| HuffmanFlow.AcceptedValues | app/src/main/jni/libjpeg-turbo-1.4.0/jchuff.c:500-556 | The coder accepts a block if and only if its AC coefficients are at most 1023 and its DC difference at most 2047 in magnitude. |
| HuffmanFlow.DcDifferenceItems | app/src/main/jni/libjpeg-turbo-1.4.0/jchuff.c:487-515 | A difference is sent as the category n, its magnitude being at least 2^(n-1) and below 2^n, and the n bits of v, or of v + 2^n - 1 if v is negative. |
| HuffmanFlow.AcCoefficients | app/src/main/jni/libjpeg-turbo-1.4.0/jchuff.c:517-582 | A nonzero coefficient behind r zeros is sent as r / 16 symbols 0xF0, the symbol 16 (r mod 16) + n and its n bits; 0x00 is sent at the end if and only if zeros are left. |
| HuffmanFlow.HuffmanPrediction | app/src/main/jni/libjpeg-turbo-1.4.0/jchuff.c:638-649 | A prediction is the DC value of the component's last block in the segment, zero before its first one. |
| HuffmanSequential.BlockEncoder.EncodeOneBlock | app/src/main/jni/libjpeg-turbo-1.4.0/jchuff.c:477-585 | The bits written are the codes and bits of exactly the block's items. |
| HuffmanScan.Statistics.TestOneBlock | app/src/main/jni/libjpeg-turbo-1.4.0/jchuff.c:713-779 | Fails if and only if a value is out of range; otherwise every symbol is counted exactly as often as it occurs in the block's items. |
| HuffmanScan.GatherPass.EncodeMcuGather | app/src/main/jni/libjpeg-turbo-1.4.0/jchuff.c:786-815 | The counts after any MCUs, restarts included, belong to the items of those MCUs. |
| HuffmanScan.GatherPass.CountsAreOccurrences | app/src/main/jni/libjpeg-turbo-1.4.0/jchuff.c:786-815 | Each count is the number of occurrences of its symbol in the items of the whole scan. |
| HuffmanTwoPass.OptimizeTable | app/src/main/jni/libjpeg-turbo-1.4.0/jchuff.c:987-1025 | For the counts of a pass: fails if and only if Huffman's algorithm, which is optimal, gives a length above 32; otherwise a symbol has a code if and only if its count is not zero, the codes are a prefix code, and if the optimal code has no length above 16 every code has exactly its optimal length. |
| HuffmanTwoPass.TwoPass.MakeTables | app/src/main/jni/libjpeg-turbo-1.4.0/jchuff.c:987-1025 | Fails if and only if Huffman's algorithm gives one of the tables in use a code above 32 bits; otherwise every symbol of the scan's items has a code. |
| HuffmanTwoPass.FewItemsFit | app/src/main/jni/libjpeg-turbo-1.4.0/jchuff.c:920-931 | It does not for a scan of fewer than 9227464 symbols and bit fields. |
| HuffmanTwoPass.OutputFindsCodes | app/src/main/jni/libjpeg-turbo-1.4.0/jchuff.c:617-667 | If all items of the scan have codes, no MCU of the output pass meets a symbol without one. |
| HuffmanOutput.OutputPass.EncodeMcuHuff | app/src/main/jni/libjpeg-turbo-1.4.0/jchuff.c:617-667 | One MCU more is in the output, restart markers included. |
| HuffmanOutput.OutputPass.FinishPass | app/src/main/jni/libjpeg-turbo-1.4.0/jchuff.c:674-690 | The output is the segments with restart markers between them, each the exact bits of its items, stuffed, padded with ones. |
| HuffmanOutput.PaddedWithOnes | app/src/main/jni/libjpeg-turbo-1.4.0/jchuff.c:460-469 | The bytes of a segment are its bits, highest first, and fewer than eight bits more, all of them ones. |
| HuffmanDecoding.SymbolDecoded | app/src/main/jni/libjpeg-turbo-1.4.0/jchuff.c:244-299 | Whatever bits follow, the symbol that was sent is the only one whose code comes next. |
| HuffmanDecoding.BlockDecoded | app/src/main/jni/libjpeg-turbo-1.4.0/jchuff.c:477-585 | The bits of a block, whatever bits follow, are decoded after figures F.13 and F.16 of ITU-T T.81 to the block. |
| HuffmanDecoding.ScanDecoded | app/src/main/jni/libjpeg-turbo-1.4.0/jchuff.c:592-690 | The bytes of a scan, restart markers, stuffing and padding included, are read back as the blocks that were written, whatever marker follows. |
| HuffmanRoundTrip.OptimizedScan | app/src/main/jni/libjpeg-turbo-1.4.0/jchuff.c:617-1025 | Statistics pass, tables and output pass: an error for values out of range exactly if there are any, for a code above 32 bits exactly if Huffman's algorithm gives one, which takes nine million symbols, and otherwise bytes that are read back as the blocks that were given. |
| HuffmanEobRuns.BlockDelivers | app/src/main/jni/libjpeg-turbo-1.4.0/jcphuff.c:617-738 | One block of an AC scan keeps EOBRUN below 0x7FFF, BE at most 937 and BE = 0 unless EOBRUN > 0, and a reader will get its new values and correction bits in order, however the pending run ends. |
| HuffmanEobRuns.StreamReadBack | app/src/main/jni/libjpeg-turbo-1.4.0/jcphuff.c:617-738 | Over any blocks, every new value and every correction bit arrives exactly once and in coefficient order, and nothing else is read. |
| HuffmanFlow.FirstScanBand | app/src/main/jni/libjpeg-turbo-1.4.0/jcphuff.c:494-545 | A band of a first scan: the pending run is sent before the first nonzero coefficient, coefficients are sent as in a sequential scan, and zeros at the end add nothing. |
| HuffmanFlow.RefinementBand | app/src/main/jni/libjpeg-turbo-1.4.0/jcphuff.c:660-711 | A band of a refinement scan: a new coefficient is sent as 16 r + 1, its sign and the correction bits passed on the way; 16 zeros get a symbol of their own only up to the last new coefficient. |
| HuffmanFlow.EobRunItems | app/src/main/jni/libjpeg-turbo-1.4.0/jcphuff.c:315-338 | A run of c blocks with 2^n <= c < 2^(n+1) is sent as the symbol 16 n and the n bits of c - 2^n. |
| HuffmanFlow.RunIsSent | app/src/main/jni/libjpeg-turbo-1.4.0/jcphuff.c:713-722 | The run grows by one for a block that ends in zeros or correction bits, and is sent at once exactly if it has reached 32767 or has more than 937 correction bits. |
| HuffmanFlow.BlockInScan | app/src/main/jni/libjpeg-turbo-1.4.0/jcphuff.c:370-738 | What a scan sends of a block, by its Ss, Ah and Al: the difference of the shifted DC values, the next bit of the DC value, or the band of AC coefficients. |
| HuffmanProgressive.PhuffEncoder.EmitEobrun | app/src/main/jni/libjpeg-turbo-1.4.0/jcphuff.c:315-339 | Counts or sends the symbol of the pending run, its low bits and its correction bits; afterwards nothing is pending; the error exit is never taken. |
| HuffmanProgressive.PhuffEncoder.EncodeDcFirst | app/src/main/jni/libjpeg-turbo-1.4.0/jcphuff.c:408-441 | Fails if and only if the difference is out of range; otherwise its items are counted or sent. |
| HuffmanProgressive.PhuffEncoder.EncodeAcFirst | app/src/main/jni/libjpeg-turbo-1.4.0/jcphuff.c:485-542 | Fails if and only if a coefficient of the band is out of range; otherwise exactly the block's items are counted or sent, and the pending run is as specified. |
| HuffmanProgressive.PhuffEncoder.EncodeAcRefine | app/src/main/jni/libjpeg-turbo-1.4.0/jcphuff.c:640-723 | Exactly the block's items are counted or sent, correction bits buffered in place without exceeding 1000, every run field at most 15. |
| HuffmanProgressiveScan.AcSegmentReadBack | app/src/main/jni/libjpeg-turbo-1.4.0/jcphuff.c:463-738 | From the items of a segment of an AC scan a reader that knows which coefficients are nonzero already gets all new values and correction bits back. |
| HuffmanProgressiveScan.ProgressivePass.EncodeMcu | app/src/main/jni/libjpeg-turbo-1.4.0/jcphuff.c:376-738 | Gathering or writing, an MCU fails if and only if it is out of range; otherwise the pass has gone through the items of the MCUs given so far. |
| HuffmanProgressiveScan.ProgressivePass.FinishPass | app/src/main/jni/libjpeg-turbo-1.4.0/jcphuff.c:745-760 | The counts, or the segments written, are those of all items of the scan. |
| HuffmanTwoPassProgressive.McusFindCodes | app/src/main/jni/libjpeg-turbo-1.4.0/jcphuff.c:280-290 | If the items of the whole scan have codes, so has everything that is sent after any number of its MCUs. |
| HuffmanTwoPassProgressive.MakeTables | app/src/main/jni/libjpeg-turbo-1.4.0/jcphuff.c:766-807 | Tables for exactly the table numbers in use, none for DC refinement; fails if and only if Huffman's algorithm gives one of them a code above 32 bits; otherwise every item of the scan has a code. |
| HuffmanTwoPassProgressive.OptimizedScan | app/src/main/jni/libjpeg-turbo-1.4.0/jcphuff.c:107-807 | Statistics pass, tables and output pass: the first fails if and only if a value is out of range, the tables if and only if a code would have more than 32 bits, the last never, and every segment written is the exact bits of its items. |
| HuffmanProgressiveDecoding.AcSegmentCompletes | app/src/main/jni/libjpeg-turbo-1.4.0/jcphuff.c:463-738 | From the blocks truncated at Ah (nothing in a first scan) and the bytes of a segment of an AC scan, a reader after figure G.7 of ITU-T T.81 gets the bands truncated at Al. |
| HuffmanProgressiveDecoding.AcScanCompletes | app/src/main/jni/libjpeg-turbo-1.4.0/jcphuff.c:346-760 | The same for a whole AC scan with its padding, stuffing and restart markers, with the tables that OptimizedScan makes; in a first scan for values the coder accepts. |
| HuffmanProgressiveDecoding.DcFirstDecoded | app/src/main/jni/libjpeg-turbo-1.4.0/jcphuff.c:376-447 | The bits of a first DC scan are decoded to the DC values shifted by Al. |
| HuffmanProgressiveDecoding.DcRefineDecoded | app/src/main/jni/libjpeg-turbo-1.4.0/jcphuff.c:570-606 | The DC values shifted by Al + 1 and the bits of a DC refinement scan make the DC values shifted by Al. |
| HuffmanProgressiveDecoding.DcScanCompletes | app/src/main/jni/libjpeg-turbo-1.4.0/jcphuff.c:376-447 | A whole DC scan, first or refinement, with its padding, stuffing and restart markers: every segment read from the bytes gives the DC values shifted by Al, or the next bit of each. |
| HuffmanProgressiveRoundTrip.OptimizedScan | app/src/main/jni/libjpeg-turbo-1.4.0/jcphuff.c:107-807 | Both passes over any kind of progressive scan: an error exactly for values out of range or a code above 32 bits, otherwise bytes that complete every block as the scan is meant to, whatever marker follows. |
| PassControl.Master.PrepareForPass | app/src/main/jni/libjpeg-turbo-1.4.0/jcmaster.c:435-511 | Fails if and only if statistics are asked of the arithmetic coder or there are too many components without a script; otherwise the right pass runs on the right scan, also when an optimization pass is skipped. |
| PassControl.Master.FinishPassMaster | app/src/main/jni/libjpeg-turbo-1.4.0/jcmaster.c:537-571 | The next pass is the one the run is supposed to make next. |
| PassControl.Master.FinishCompress | app/src/main/jni/libjpeg-turbo-1.4.0/jcapimin.c:151-195 | From every starting mode the loop ends, with pass_number equal to total_passes and all scans written in order. |
| PassControl.Compress | app/src/main/jni/libjpeg-turbo-1.4.0/jcapistd.c:34-111 | A whole compression makes exactly the specified run, the headers of a single pass being written with the first scanlines. |
| PassControl.Transcode | app/src/main/jni/libjpeg-turbo-1.4.0/jctrans.c:39-58 | A whole transcoding makes exactly the specified run. |
| PassControl.HeadersOnceInOrder | app/src/main/jni/libjpeg-turbo-1.4.0/jcmaster.c:485-490 | In a run the frame header is written once, first, and each scan header once, in script order. |
| PassControl.ImageStoredIfNeeded | app/src/main/jni/libjpeg-turbo-1.4.0/jcmaster.c:449-462 | Without transcoding the first pass stores the coefficients if and only if another pass follows and passes them through if and only if none does; every later pass, and in transcoding every pass, reads the stored ones. |
| PassControl.EventsInOrder | app/src/main/jni/libjpeg-turbo-1.4.0/jcmaster.c:435-571 | A statistics pass is followed at once by the output pass of the same scan; the headers are written after its start, and it is finished before anything of the next scan begins. |
| PassControl.StatisticsPasses | app/src/main/jni/libjpeg-turbo-1.4.0/jcmaster.c:466-481 | With Huffman coding scan k has a statistics pass in the run if and only if optimization was asked for or the script is progressive, and the scan does not refine DC coefficients. |
| PassControl.OptPassIffNeeded | app/src/main/jni/libjpeg-turbo-1.4.0/jcmaster.c:466-481 | With Huffman coding a scan has a statistics pass exactly if optimization is on and it is not a DC refinement. |
| McuGeometry.InitialSetup | app/src/main/jni/libjpeg-turbo-1.4.0/jcmaster.c:69-158 | Succeeds if and only if dimensions, samples per row, precision, component count and sampling factors are in range, and otherwise ends in the first check that fails; block sizes are the ceilings, and the greatest sampling factors are those of some component. |
| McuGeometry.NestedCeiling | app/src/main/jni/libjpeg-turbo-1.4.0/jutils.c:73-79 | Rounding up to blocks and then to MCUs is rounding up once. |
| McuGeometry.McusTile | app/src/main/jni/libjpeg-turbo-1.4.0/jcmaster.c:124-158 | The MCUs tile the padded block grid of every component; only the last column and row have padding. |
| McuGeometry.PerScanSetup | app/src/main/jni/libjpeg-turbo-1.4.0/jcmaster.c:342-416 | Fails if and only if an interleaved MCU has more than 10 blocks; otherwise sizes, last column and row, and membership are those of the layout. |
| McuSequence.RowsAddUp | app/src/main/jni/libjpeg-turbo-1.4.0/jccoefct.c:70-92 | The iMCU rows cut the MCU rows of every scan without gap or overlap. |
| McuSequence.RealRow | app/src/main/jni/libjpeg-turbo-1.4.0/jccoefct.c:172-173 | The test at the bottom edge holds if and only if the block row exists in the component. |
| McuSequence.RealBlocks | app/src/main/jni/libjpeg-turbo-1.4.0/jccoefct.c:167-168 | The block count at the right edge is that of the blocks that exist. |
| McuContents.BlockInMcu | app/src/main/jni/libjpeg-turbo-1.4.0/jccoefct.c:163-203 | Every block of an MCU: the block of its component at its place if there is one, and otherwise a block with 63 zero AC coefficients and the DC value of the block just before it in the component's part of the MCU. |
| McuContents.BlockInScan | app/src/main/jni/libjpeg-turbo-1.4.0/jccoefct.c:163-203 | The same for every block of every MCU of a scan in raster order. |
| CoefControl.RowCounter.StartIMcuRow | app/src/main/jni/libjpeg-turbo-1.4.0/jccoefct.c:70-92 | The number of MCU rows in the iMCU row, and counters at its beginning. |
| CoefControl.CoefController.SinglePassRow | app/src/main/jni/libjpeg-turbo-1.4.0/jccoefct.c:169-200 | A row of blocks of an MCU: real blocks, then dummy blocks with the DC value of the block before. |
| CoefControl.CoefController.TranscodingRow | app/src/main/jni/libjpeg-turbo-1.4.0/jctrans.c:324-347 | The same row from arrays without padding, dummy blocks made on the fly. |
| CoefControl.CoefController.BufferedRow | app/src/main/jni/libjpeg-turbo-1.4.0/jccoefct.c:370-375 | The same row from padded arrays. |
| CoefControl.CoefController.BuildMcu | app/src/main/jni/libjpeg-turbo-1.4.0/jccoefct.c:163-203 | In each mode the MCU buffer holds exactly the blocks of the specified MCU and never overflows. |
| CoefControl.CoefController.ProcessRow | app/src/main/jni/libjpeg-turbo-1.4.0/jccoefct.c:150-223 | Whether it finishes or suspends, what has been sent is exactly what comes before the current MCU in raster order. |
| CoefControl.FillStrip | app/src/main/jni/libjpeg-turbo-1.4.0/jccoefct.c:259-329 | One component's strip of the virtual array holds the padded blocks of the iMCU row; other strips are untouched. |
| CoefControl.CoefController.CompressFirstPass | app/src/main/jni/libjpeg-turbo-1.4.0/jccoefct.c:247-336 | The strip of every component is filled, repeatedly if need be, and the MCUs of the row are sent as far as the coder takes them. |
| CoefControl.CoefController.RunSinglePass | app/src/main/jni/libjpeg-turbo-1.4.0/jccoefct.c:141-223 | A single pass sends the specified MCUs of the scan, all of them, under every pattern of suspensions. |
| CoefControl.CoefController.RunFirstPass | app/src/main/jni/libjpeg-turbo-1.4.0/jccoefct.c:247-336 | So does the first of several passes, and all strips are then held for the later ones. |
| CoefControl.CoefController.RunOutput | app/src/main/jni/libjpeg-turbo-1.4.0/jctrans.c:290-364 | So does a later pass from the padded arrays, and the transcoder from arrays without padding. |
| McuPositions.AllMcusAt | app/src/main/jni/libjpeg-turbo-1.4.0/jdcoefct.c:280-291 | The MCUs the compressor sends for an image are the contents of its padded arrays at the positions the decoder's pointers have, in the same order. |
| McuPositions.McusApart | app/src/main/jni/libjpeg-turbo-1.4.0/jdcoefct.c:280-291 | No block is in two MCUs of a scan. |
| McuPositions.VisitedExists | app/src/main/jni/libjpeg-turbo-1.4.0/jdcoefct.c:268-291 | Every position of an MCU lies in the padded array of its component; in a scan of a single component it is a block of the image. |
| McuPositions.PosInMcu | app/src/main/jni/libjpeg-turbo-1.4.0/jdcoefct.c:280-291 | Every real block of every component of the scan is in the MCU that its coordinates say. |
| CoefConsume.CoefReader.ConsumeMcu | app/src/main/jni/libjpeg-turbo-1.4.0/jdcoefct.c:273-303 | The entropy decoder is handed over the blocks of the MCU as the scan found them, and what it makes of them is stored where they were; MCUs before and after are left alone. |
| CoefConsume.CoefReader.ConsumeData | app/src/main/jni/libjpeg-turbo-1.4.0/jdcoefct.c:246-316 | Whether it completes a row, the scan, or suspends, exactly the MCUs before the current one have been changed. |
| CoefConsume.CoefReader.RunScan | app/src/main/jni/libjpeg-turbo-1.4.0/jdcoefct.c:246-316 | Under every pattern of suspensions, every block of the scan's MCUs goes through the entropy decoder once and ends at its own position; every other block is as before. |
| PrepControl.CreateContextBuffer | app/src/main/jni/libjpeg-turbo-1.4.0/jcprepct.c:268-307 | Five row groups of pointers alias three row groups of rows, with wraparound above and below. |
| PrepControl.PrepController.PreProcessData | app/src/main/jni/libjpeg-turbo-1.4.0/jcprepct.c:129-187 | Row groups delivered are those of the image, the last ones repeating the bottom row; input is used up or the iMCU row is complete. |
| PrepControl.GroupFromRows | app/src/main/jni/libjpeg-turbo-1.4.0/jcprepct.c:155-168 | What the downsampler is given for a group are the image rows at its place, with context from one group above to one below, where beyond the image the nearest row counts. |
| PrepControl.GroupBelowImage | app/src/main/jni/libjpeg-turbo-1.4.0/jcprepct.c:171-184 | Without context, a group below the image repeats the last row of the last group that has an image row. |
| PrepControl.PrepController.ContextRows | app/src/main/jni/libjpeg-turbo-1.4.0/jcprepct.c:243-247 | What the downsampler sees are exactly the image rows from one group above to one group below, clamped to the image. |
| PrepControl.HeldAdvance | app/src/main/jni/libjpeg-turbo-1.4.0/jcprepct.c:248-255 | Advancing the ring by a row group turns the rows below into the current ones. |
| PrepControl.PrepController.PreProcessContext | app/src/main/jni/libjpeg-turbo-1.4.0/jcprepct.c:196-259 | Every row group is downsampled from its context, for every image height and every way of cutting the input. |
| MainControl.MainController.Send | app/src/main/jni/libjpeg-turbo-1.4.0/jcmainct.c:97-120 | The suspension bookkeeping: one row less is admitted while an iMCU row waits, never below zero, and it is made good when the row has been taken. |
| MainControl.MainController.ProcessData | app/src/main/jni/libjpeg-turbo-1.4.0/jcmainct.c:76-122 | What has been sent, buffered and read stays consistent; without suspension all rows offered are used. |
| MainControl.RowSink.CompressData | app/src/main/jni/libjpeg-turbo-1.4.0/jcmainct.c:97-101 | Every time the compressor is called, also after a refusal, it is given exactly the next iMCU row. |
| MainControl.Compressor.WriteScanlines | app/src/main/jni/libjpeg-turbo-1.4.0/jcapistd.c:76-111 | next_scanline counts the rows read, less one while suspended, and never exceeds the image height. |
| MainControl.Compressor.WriteImage | app/src/main/jni/libjpeg-turbo-1.4.0/jcapistd.c:76-111 | For every cutting of the image into calls and every finite pattern of suspensions, the compressor gets the same total_iMCU_rows iMCU rows, each image row is read once, and next_scanline ends at image_height. |
| Reciprocal.Flss | app/src/main/jni/libjpeg-turbo-1.4.0/jcdctmgr.c:80-109 | The binary search finds the position of the highest one bit. |
| Reciprocal.Reciprocate | app/src/main/jni/libjpeg-turbo-1.4.0/jcdctmgr.c:166-199 | For every divisor from 2 and every word size of at least 16 bits: the reciprocal fits the word, and for every magnitude that leaves room for the rounding, multiplying and shifting is the rounded quotient. |
| Reciprocal.FdctController.ComputeReciprocal | app/src/main/jni/libjpeg-turbo-1.4.0/jcdctmgr.c:166-203 | The stored numbers divide by the divisor; no other entry changes. |
| Reciprocal.FdctController.StartPass | app/src/main/jni/libjpeg-turbo-1.4.0/jcdctmgr.c:215-252 | Fails if and only if a component's table is missing; otherwise the tables of all components divide by eight times the quantization values. |
| Reciprocal.FdctController.Quantize | app/src/main/jni/libjpeg-turbo-1.4.0/jcdctmgr.c:389-418 | Every coefficient is the rounded quotient, cast to 16 bits; below 262140 in magnitude the cast loses nothing. |
| Reciprocal.RoundsHalfAway | app/src/main/jni/libjpeg-turbo-1.4.0/jcdctmgr.c:405-416 | No integer is nearer to the quotient, halves go away from zero, and the sign is symmetric. |

## Left out

- ArithEncoder.Encoder.ByteOut: the counters sc and zc are unbounded integers; that they could overflow an INT32 after two billion stacked bytes is not modelled.
- ArithMcuDecoder.McuDecoder.DecodeDc: last_dc_val is an unbounded integer, so an overflow of the predictor on a damaged file is not modelled.
- ArithDecoder.Decoder.ReadRestartMarker: jpeg_resync_to_restart, which is called when another marker is found, is not part of this model; the result says that it would be called.
- ArithScanDecoder.ScanDecoder.StartPass: coef_bits is kept by DecoderProgression.ScanStatus instead; sequential scans with unusual Ss and Se (which only draw a warning) are left out.
- ScanTransfer.TransferScan: the entropy decoder is run on all MCUs of the scan before consume_data hands them over; that these are the same blocks is proved.
- ProgressiveRoundTrip.ScriptRoundTrip: sequential scripts of several scans are left out (ImageRoundTrip has each of their scans); the conditioning is the same in all scans.
- HuffmanTable.GenOptimalTable: stated for 1 to 254 used real symbols whose counts sum to less than 10^9, the range in which bits[] and the search of the source work.
- HuffmanCodes.MakeDerivedTbl: the check of the table number and of a missing table is left out.
- HuffmanBits.RightWriter.EmitBits: the 64-bit bit buffer is not modelled, only the 32-bit one; local buffers for one block are unbounded.
- HuffmanOutput.OutputPass.EncodeMcuHuff: the destination is append-only, so suspension inside an MCU and its restoration of state are left out.
- HuffmanDecoding.ScanDecoded: the reader is a specification after the figures of ITU-T T.81; jdhuff.c and jdphuff.c are not part of this model.
- PassControl.Master.PrepareForPass: which modules are active is a trace of events; the start_pass routines of the other modules, and the error exits of per_scan_setup, are elsewhere or left out.
- PassControl.Compress: progress monitoring, jpeg_write_marker and the checks of global_state are left out.
- McuGeometry.InitialSetup: the product of image_width and input_components is taken to fit a long.
- McuGeometry.PerScanSetup: the conversion of restart_in_rows to a restart interval is left out.
- CoefControl.CoefController.SinglePassRow: the forward DCT is given by its result, the real blocks of each iMCU row; compress_data, compress_first_pass and both compress_output share one pair of loops that calls the row builder of its mode.
- CoefConsume.CoefReader.RunScan: the entropy decoder is given by what it expects and what it delivers; output side and block smoothing of jdcoefct.c are left out.
- PrepControl.PrepController.PreProcessContext: one component stands for all, which the source treats alike; color conversion has been done, and the downsampler is any function of the rows it is given.
- MainControl.Compressor.WriteScanlines: the warning for excess scanlines and the progress monitor are left out.
- Reciprocal.FdctController.StartPass: only the JDCT_ISLOW branch; the choice of the SIMD quantizer from the result of compute_reciprocal is left out.
- Reciprocal.FdctController.Quantize: the most negative value of a DCTELEM, which the source cannot negate, is excluded, as are divisors of 0 and 1 (quantval 0, or above 8191 before the shift).
- JNI, the UVC camera layer, command-line tools, file and memory managers, marker writing beyond the order of headers, color conversion, downsampling filters, DCT kernels, SIMD and floating-point variants: not part of this model.
