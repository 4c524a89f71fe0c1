# The entropy coders and buffer controllers of the JPEG library, version 8b

This project models the parts of `tool/jpeg-8b` whose correctness rests on state that is
carried from call to call, and proves what they promise. Code that changes things step by
step is modelled by classes, arrays and loops; each such method is proved against a
specification on values, and the results are about those specifications.

- **Arithmetic coding** (`Bytes`, `Aritab`, `ArithInterval`, `ArithAdapt`, `ArithEncoder`,
  `ArithDecoder`, `ArithCodec`, `ArithBinarise`, `ArithFigures`, `ArithBins`, `ArithSegments`,
  `ArithMcuEncoder`, `ArithMcuDecoder`, `ArithScan`). The encoder's registers, pending zeros and
  stacked 0xFF bytes stand for an interval of real numbers. The bytes written name a number
  inside it although trailing zeros are dropped, and the decoder finds the same decisions in
  them. How a statistics bin learns is told from the bin before and after, and the decisions of
  a block are told coefficient by coefficient. No block uses a bin outside its own component's
  tables, and scans come back with any restart interval.
- **Huffman tables** (`Kraft`, `HuffForest`, `HuffMerges`, `HuffTree`, `HuffSpace`,
  `HuffGen`, `HuffCode`, `HuffShortest`, `HuffDerived`). Code lengths from the merge loop are
  optimal; limiting them to 16 bits keeps the code space full and changes nothing when none is
  longer, so that no symbol gets a longer code than its optimal one; the derived tables of encoder and decoder say the
  same, and the lookahead table says what the slow search says.
- **Sequential scans** (`BitString`, `EntropySegment`, `HuffBitWriter`, `HuffBitReader`,
  `HuffDecode`, `HuffTokens`, `HuffBlock`, `Intervals`, `MarkerSearch`, `HuffSegments`,
  `HuffSeq*`, `HuffMcuDecoder`, `HuffRestart`, `HuffOptimise`, `HuffFigures`, `ScanIntervals`). A
  scan with any restart interval is read back, and the statistics pass counts exactly what is
  written later. What the symbols of a block and the segments of a scan are is also told
  without the definitions that the coders are proved against.
- **Progressive scans** (`Prog*`). Spectral selection and successive approximation with
  EOB runs, correction bits and restart markers. A decoder that runs out of data at any byte
  is called again and ends up as if it had not.
- **Scripts and passes** (`ScanScript`, `ScriptHistory`, `ScriptBits`, `SimpleProgression`,
  `PassMaster`).
- **Context rows** (`ImageRows`, `ContextPrep`, `FunnyPointers`, `MainController`). Ring
  buffers that show each row group between its neighbours, on both sides of the library.
- **Upsampling** (`YccRgb`, `SepUpsample`, `MergedUpsample`, `UpsampleRuns`).
- **Markers** (`NaturalOrders`, `Markers`, `MarkerBytes`, `MarkerWriter`, `MarkerReader`,
  `MarkerRoundTrip`, `ScanHeaders`). Headers come back, and the scan that a decoder sets up from
  them is the one that the entropy coder wrote.

Some properties do not hold of the code as it stands. Each is given with an input that fails
and with the exact condition under which it does hold:

- `jpeg_gen_optimal_table` gives up on counts that make a code longer than 32 bits. This
  happens exactly when the optimal lengths say so (`HuffGen.GenOptimalTable`), never with counts
  that sum to less than 9227465 (`HuffGen.FewCountsFit`), and it does happen with that sum
  (`HuffGen.ManyCountsNeedNot`).
- The decompressor's controller with context rows hides dummy rows only in the last iMCU row, so
  the group above it may be shown dummy rows as its lower neighbours
  (`MainController.DummyRowPassedOn`). The window of a group is exact for every image content if
  and only if the next group is not the first of the last iMCU row, or is full of image rows, or
  there are no rows below the image (`FunnyPointers.ExactIff`).
- The marker writer does not look at the bounds of the arithmetic conditioning, and the reader
  refuses those that are the wrong way round: exactly those
  (`MarkerRoundTrip.ConditioningRoundTrip`), for example 5 and 1
  (`MarkerRoundTrip.BoundsRefused`).
- The marker writer cuts a restart interval to two bytes: it comes back exactly when it is at
  most 65535 (`MarkerRoundTrip.IntervalRoundTrip`), and 65536 comes back as 0
  (`MarkerRoundTrip.IntervalCut`).
- The reader of a scan header takes the first component with a number, so a scan comes back
  exactly when each of its components is the first with its number
  (`MarkerRoundTrip.ScanRoundTrip`); the second of two with one number comes back as the first
  (`MarkerRoundTrip.SameNumber`).

Where a comment of the original and its code disagree, the code is followed.

## Model
| member | source | states |
|---|---|---|
| ArithCodec.RoundTrip | tool/jpeg-8b/jcarith.c:133-311 | For all decisions, all starting statistics and any marker and bytes behind: the bytes added to dest are a stuffed string that lies in the interval of the decisions (`Encodes`), the decoder run over the same bins takes them from it (`Decodes`), the decisions are equal and so are the statistics at the end. |
| ArithCodec.DecodedIsEncoded | tool/jpeg-8b/jdarith.c:106-182 | Any decisions over the same bins whose interval contains the segment read from the encoder's output are the encoded ones, although trailing zeros were dropped. |
| ArithCodec.EncodeSegment | tool/jpeg-8b/jcarith.c:133-193 | What arith_encode and finish_pass write for any decisions is a stuffed string in their interval that does not end in zero, behind the old output. |
| ArithCodec.DecodeSegment | tool/jpeg-8b/jdarith.c:106-182 | On any input, valid or not: if the decoder succeeds, the segment lies in the interval of what it decoded and the statistics are those of coding it; it always succeeds when a marker follows. |
| ArithEncoder.Encoder.ArithEncode | tool/jpeg-8b/jcarith.c:219-311 | One more decision in the history, with the invariant kept: output, pending zeros, stacked 0xFF bytes, buffer and register C together denote the low end of the interval of the history, and C + A never exceeds 0x9000000. With jpeg_aritab the bin has learned as CodeAdapts says, and no other bin has changed. |
| ArithEncoder.Encoder.FinishPass | tool/jpeg-8b/jcarith.c:133-193 | The output is the stuffed form of a digit string in the final interval, whose last digit is not zero. |
| ArithEncoder.TerminateIsShortest | tool/jpeg-8b/jcarith.c:140-151 | The value that finish_pass picks has as many trailing zero bits as any value in [C, C + A). |
| ArithDecoder.Decoder.ArithDecode | tool/jpeg-8b/jdarith.c:106-182 | One more decision in the history, with the invariant kept: A, C and CT are the offset of the data read in the interval of the history, and C stays below 0x800000. With jpeg_aritab the bin has learned as CodeAdapts says of the decision returned, and no other bin has changed. |
| ArithDecoder.Decoder.ArithDecodeNext | tool/jpeg-8b/jdarith.c:106-182 | If the data lie in the interval of a decision and more, that decision is returned and the rest is expected next. |
| ArithAdapt.CodeAdapts | tool/jpeg-8b/jcarith.c:228-262 | For every state of the 114 and every interval: the bin changes exactly when a renormalisation is due and its state is not 113, nor 13 with its MPS. Its MPS then lowers the estimate Qe and never changes the MPS. The LPS raises Qe, or it changes the MPS, and it does that exactly when Qe is at least 0x5570 and the state neither 108 nor 113. No other bin changes. |
| ArithAdapt.MpsOnlyLowers | tool/jpeg-8b/jaricom.c:31-153 | After any run in which a bin is only ever given its MPS, the MPS is the same and Qe no higher. |
| ArithAdapt.CodeSplits | tool/jpeg-8b/jcarith.c:235-275 | For every table: the LPS is given the narrower of the parts Qe and A - Qe wide and always renormalises, the MPS the other; the part Qe wide is the upper one; and the part is doubled just as often as it takes to reach 0x8000. |
| ArithInterval.StreamDeterminesBits | tool/jpeg-8b/jdarith.c:137-181 | The subdivision behind both coders: two decision strings over the same bins whose unbounded intervals contain the same digits are equal. Registers and bytes are the subject of the rows above. |
| ArithEncoder.Encoder.EmitRestart | tool/jpeg-8b/jcarith.c:319-353 | The segment is finished as by finish_pass and closed by its marker; registers, statistics and history start again behind it. |
| ArithDecoder.Decoder.ProcessRestart | tool/jpeg-8b/jdarith.c:190-222 | Goes on exactly behind the marker that ends the segment when it has the right number, whether it has been read or not, and starts again there. |
| ArithBins.DcInArea | tool/jpeg-8b/jcarith.c:715-764 | Every decision of a DC difference uses one of the 64 bins of its own DC table. |
| ArithBins.AcInArea | tool/jpeg-8b/jcarith.c:766-819 | Every decision of the AC coefficients of a block uses one of the 256 bins of its own AC table, or the fixed bin. |
| ArithBins.AreasApart | tool/jpeg-8b/jcarith.c:831-906 | Different tables share no bins but the fixed one. |
| ArithMcuDecoder.GetDc | tool/jpeg-8b/jdarith.c:531-575 | On any stream, also when it runs out or the code is bad, only bins of the component's own DC table are used; if the data continue with a difference, it is returned with the next context. |
| ArithMcuDecoder.GetAc | tool/jpeg-8b/jdarith.c:577-617 | On any stream only bins of the component's own AC table and the fixed bin are used; if the data continue with a block, its coefficients are stored. |
| ArithFigures.DcDecisionsAre | tool/jpeg-8b/jcarith.c:722-764 | The decisions of a DC difference with their bins: zero or not at 64 t + ctx, the sign behind it, more than 1 at the next bin of that sign, the size by ones from 64 t + 20 on and a zero, and the bits below the leading one, highest first, 14 bins behind where that stopped. |
| ArithFigures.AcDecisionsAre | tool/jpeg-8b/jcarith.c:766-819 | The decisions of a block are those of its coefficients in turn: at 1024 + 256 t + 3 (k - 1) whether the block ends, at its start and after each nonzero coefficient; behind it whether the coefficient is zero; and for others the sign in the fixed bin and the magnitude, its size in bins from 189 on up to Kx and from 217 on above. |
| ArithFigures.NextCtxIs | tool/jpeg-8b/jcarith.c:749-759 | The next context is 0 for differences up to half of 2^L, and else 4 or 8 by the sign, 8 more above 2^U. |
| ArithFigures.McuDecisionsAre | tool/jpeg-8b/jcarith.c:686-823 | An MCU is its blocks in turn, each with the tables, the last DC value and the context of its own component, to which it leaves its DC value and the context of its difference. |
| ArithMcuEncoder.ScanEncoder.EncodeMcu | tool/jpeg-8b/jcarith.c:686-823 | The decisions coded are those of the binarisation of the blocks with the current predictions and contexts, in the tables of the scan's components only, and the new predictions follow from them; a restart marker that is due closes the segment first. |
| ArithMcuDecoder.ScanDecoder.DecodeMcu | tool/jpeg-8b/jdarith.c:503-623 | On any stream only bins of the scan's components are used. If the data continue with the binarisation of blocks, here or behind the restart marker that is due, those blocks are stored, and predictions and contexts are those the encoder has. |
| ArithScan.ScanInArea | tool/jpeg-8b/jcarith.c:686-823 | Every decision of every segment of a scan uses a bin of one of its components' tables. |
| ArithSegments.FinishedHolds | tool/jpeg-8b/jcarith.c:319-353 | Whatever stands before and behind: segments written with their markers between them are found one after the other with those markers. |
| ArithSegments.ClearingIsEnough | tool/jpeg-8b/jcarith.c:331-344 | Clearing the areas of the scan's own tables, as the code does, brings all statistics back to their start. |
| ArithScan.ScanRoundTrip | tool/jpeg-8b/jcarith.c:686-823 | A whole scan of codable blocks with any restart interval: the output is its segments with their markers, every block is read back in the coefficients up to lim_Se, and with lim_Se 63 the scan is the same. |
| ScanIntervals.ArithSegmentsAre | tool/jpeg-8b/jcarith.c:686-706 | With a restart interval n segment j holds the decisions of MCUs j n to j n + n - 1, from fresh predictions, and there are as many segments as that takes. |
| HuffTree.CodeLengths | tool/jpeg-8b/jchuff.c:1268-1327 | For all counts summing to at most 10^9 the lengths of the used symbols (with the pseudo-symbol) fill the code space and no lengths that satisfy Kraft's inequality cost less; they are those of the recursive merge. |
| HuffTree.OptimalAmongPrefixCodes | tool/jpeg-8b/jchuff.c:1268-1327 | Nor does any prefix-free assignment of bit strings to the used symbols cost less. |
| HuffTree.SizesAreOptimal | tool/jpeg-8b/jchuff.c:1268-1327 | The recursive merge gives optimal lengths for any counts that are not all zero. |
| HuffMerges.LongCodesTakeManyCounts | tool/jpeg-8b/jchuff.c:1332-1341 | A code of k bits takes counts that sum to at least Fibonacci(k + 2). |
| HuffMerges.TheBoundIsMet | tool/jpeg-8b/jchuff.c:1332-1341 | For every k up to 256 there are counts with that very sum that get a code of k bits. |
| HuffGen.FewCountsFit | tool/jpeg-8b/jchuff.c:1332-1341 | Counts summing to less than 9227465 never make a code longer than 32 bits. |
| HuffGen.ManyCountsNeedNot | tool/jpeg-8b/jchuff.c:1332-1341 | Counts summing to 9227465 may. |
| HuffGen.LimitLengths | tool/jpeg-8b/jchuff.c:1342-1364 | From any full code of at most 255 symbols with lengths up to 32 the loop makes a full code with lengths up to 16 for the same number of symbols, by adjustments only of this kind: two codes of the greatest length i > 16 go, one of length i - 1 comes, and one of the greatest length j <= i - 2 in use becomes two of length j + 1; all other counts stay. |
| HuffGen.OneOutcome | tool/jpeg-8b/jchuff.c:1342-1364 | Such adjustments, made until no code is longer than 16 bits, have one outcome only; with no longer code at the start it is the code itself. |
| HuffGen.GenOptimalTable | tool/jpeg-8b/jchuff.c:1256-1389 | Fails exactly when the optimal lengths exceed 32. Otherwise the table lists exactly the used symbols, each once, in order of optimal length and then of value, with lengths up to 16 that leave the code of all ones free; its counts are those of the optimal lengths, adjusted as in LimitLengths, without one of the longest. |
| HuffShortest.NoLongerThanOptimal | tool/jpeg-8b/jchuff.c:1342-1389 | When no optimal length exceeds 16, no symbol has a longer code in the finished table than its optimal one. |
| HuffOptimise.ShortestIsCheapest | tool/jpeg-8b/jchuff.c:1215-1241 | Then the codes of that table take no more bits for the symbols of the scan than those of any prefix code for them and the pseudo-symbol. |
| HuffCode.PrefixFreeCodes | tool/jpeg-8b/jchuff.c:204-231 | No canonical code is the beginning of another. |
| HuffCode.FirstCode | tool/jpeg-8b/jchuff.c:203-231 | The first symbol listed has the code of all zeros. |
| HuffCode.NextCode | tool/jpeg-8b/jchuff.c:203-231 | The next one has the next number, with zeros behind it when its code is longer. |
| HuffCode.DecodedIsCode | tool/jpeg-8b/jdhuff.c:592-627 | If the decoder finds a symbol, the bits it took are that symbol's code. |
| HuffDerived.MakeCDerivedTbl | tool/jpeg-8b/jchuff.c:161-246 | Accepts exactly the tables whose counts fit the code space and whose symbols are in range and different; then the entries are the canonical codes. |
| HuffDerived.MakeDDerivedTbl | tool/jpeg-8b/jdhuff.c:323-440 | Accepts exactly the tables whose counts fit and whose DC symbols are in range; then maxcode, valoffset and the lookahead tables describe the canonical code, with the sentinel at length 17. |
| HuffDerived.EncoderTableDecodes | tool/jpeg-8b/jdhuff.c:323-440 | What the encoder accepts the decoder accepts. |
| HuffDecode.DecodeSymbol | tool/jpeg-8b/jdhuff.c:592-627 | By lookahead or by the loop, any state of the bit buffer: the symbol is the one of canonical decoding of the bits ahead, exactly its code is consumed. After a suspension the marker that ends the segment is still the same; bits may have been taken, and the caller goes back to the state it saved. |
| HuffSeqGather.HTestOneBlock | tool/jpeg-8b/jchuff.c:1122-1188 | The counters grow by exactly the symbols that encode_one_block would emit, and it fails on exactly the coefficients that are out of range. |
| HuffSeqScan.HuffEncoder.EncodeMcu | tool/jpeg-8b/jchuff.c:1016-1065 | Succeeds exactly when all coefficients are in range and all symbols have codes; the tokens of the MCU are added to the current segment, or begin the next one when a restart was due. |
| HuffSeqScan.HuffGather.CountMcu | tool/jpeg-8b/jchuff.c:1197-1225 | Counts the same tokens under the same restarts. |
| HuffOptimise.TwoPasses | tool/jpeg-8b/jchuff.c:1397-1441 | For every scan: a missing code never happens; it is out of range exactly when a coefficient is, has too long a code exactly when the counts of some table of this scan give one, and otherwise the file holds exactly the segments of the scan under tables that a decoder accepts. No table in use has a longer code for a symbol than the optimal one, unless an optimal one exceeds 16 bits. |
| HuffOptimise.FewNeverTooLong | tool/jpeg-8b/jchuff.c:1332-1341 | A scan of fewer than 9227464 symbols has no table with too long a code. |
| HuffFigures.McuTokensAre | tool/jpeg-8b/jchuff.c:916-1065 | An MCU is its blocks in turn, each with the tables and the last DC value of its own component: the size and the bits of the difference, then the coefficients, then an end of block. |
| HuffFigures.AcTokensAre | tool/jpeg-8b/jchuff.c:965-1008 | Each nonzero coefficient is sent with the r zeros right before it: r / 16 times 0xF0, then 16 (r mod 16) plus its size, then its bits, those of 2^n - 1 + v when it is negative; a block that does not end in one has a symbol 0 at the end. |
| BitString.ByteBitsAt | tool/jpeg-8b/jchuff.c:307-340 | The bits are packed from the most significant bit of each byte on. |
| ScanIntervals.HuffSegmentsAre | tool/jpeg-8b/jchuff.c:1016-1065 | With a restart interval n segment j holds the symbols of MCUs j n to j n + n - 1, coded as a scan of their own, and there are as many segments as that takes. |
| HuffSeqDecoder.DecodeBlock | tool/jpeg-8b/jdhuff.c:1187-1302 | For every coef_limit: the same bits are consumed and the same DC results as for the whole block, and the coefficients within the limit are those of the bits. |
| HuffSeqRoundTrip.ScanRoundTrip | tool/jpeg-8b/jchuff.c:916-1065 | For all in-range blocks, restart intervals and coefficient limits, and all tables of which those in use are accepted: the writer fails exactly when a coefficient or code is missing, the output is the segments with their restart markers, and every MCU is delivered up to its limits. |
| HuffRestart.ReadRestart | tool/jpeg-8b/jdhuff.c:636-668 | However much of the input has arrived: it waits exactly when no marker has arrived, waiting changes nothing of what is ahead, and it goes on exactly behind the marker with the right number. |
| ProgEncoder.ProgEncoder.EmitRestart | tool/jpeg-8b/jchuff.c:511-532 | The pending run of blocks and its bits go to the old segment, then the marker; the run, the bits and the predictions are reset. |
| ProgAcEncoder.EncodeAcFirst | tool/jpeg-8b/jchuff.c:628-729 | In counting and in writing mode alike the tokens are those of the first-scan specification of the truncated band, with the run kept below 0x7FFF. |
| ProgAcEncoder.EncodeAcRefine | tool/jpeg-8b/jchuff.c:786-910 | The same for refinement scans, with the correction bits that wait; they never exceed MAX_CORR_BITS. |
| ProgScanEncoder.EncodeMcu | tool/jpeg-8b/jchuff.c:628-910 | With restart markers for every interval: which segment the tokens go to and what still waits. |
| HuffFigures.StepFirstIs | tool/jpeg-8b/jchuff.c:628-729 | A block of a first scan sends the run that waits and its nonzero coefficients with the zeros before them; it joins the run when it ends in zeros, or waits with it when it is all zeros; and a run of 32767 blocks is sent at once. |
| HuffFigures.EobTokensAre | tool/jpeg-8b/jchuff.c:459-477 | A run of e blocks, 2^n <= e < 2^(n+1), is the symbol 16 n and the n lowest bits of e. |
| HuffFigures.RefineTokensAre | tool/jpeg-8b/jchuff.c:841-887 | From one symbol of a refinement scan to the next: it stops at the first new coefficient, or at the first known one behind sixteen zeros; it sends 16 r + 1 and the sign, or 0xF0; and then the next bits of the known coefficients it has passed, in their order. |
| HuffFigures.StepRefineIs | tool/jpeg-8b/jchuff.c:786-910 | A block with a new coefficient sends the run with its bits and its own symbols, and what is behind its last new one waits; any other block waits as a whole; a run of 32767 blocks or with more than 937 bits is sent at once. |
| HuffFigures.DcScanTokensAre | tool/jpeg-8b/jchuff.c:559-610 | A first DC scan sends, block by block, the difference of the values shifted down by Al to that of the last block of the component. |
| ScanIntervals.AcSegmentsAre | tool/jpeg-8b/jchuff.c:628-910 | With a restart interval n segment j of an AC scan holds the symbols of blocks j n to j n + n - 1, with no run from before and none left over. |
| ScanIntervals.DcSegmentsAre | tool/jpeg-8b/jchuff.c:541-785 | The same of DC scans, with predictions from zero. |
| ProgAcScan.GatherAcScan | tool/jpeg-8b/jchuff.c:1397-1441 | The tables built from the counted scan have a code for every symbol of the scan, unless exactly this scan's counts make one too long or a coefficient is out of range. |
| ProgAcScan.WriteAcScan | tool/jpeg-8b/jchuff.c:628-910 | Gathering and writing end alike, and the output holds exactly the segments of the scan. |
| ProgAcRefineDecoder.DecodeAcRefine | tool/jpeg-8b/jdhuff.c:904-1050 | A call that ends has the changes that the bits mean for this band. A call that is suspended leaves a block from which another call, with more data, has the same outcome as it would have had from the block at first. |
| ProgScanDecoder.DecodeMcu | tool/jpeg-8b/jdhuff.c:766-1050 | With any part of the input arrived: success takes the next block of the scan and leaves the rest ahead, also across restart markers; suspension leaves everything ahead and does the block no harm. |
| ProgScanDecoder.ReceiveBlock | tool/jpeg-8b/jdhuff.c:766-1050 | So after any number of suspended calls the block is the one of a single call. |
| ProgScanDecoder.DecodeAcScan | tool/jpeg-8b/jdhuff.c:766-1050 | So is the scan, with any suspensions at any of its blocks. |
| ProgDcScanDecoder.DecodeMcu | tool/jpeg-8b/jdhuff.c:695-896 | The same for DC scans, first and refining, of one or more components. |
| ProgTransmit.SendScript | tool/jpeg-8b/jchuff.c:541-910 | The script is accepted exactly when it follows the rules. Then the file is written exactly when no scan has a coefficient out of range or counts that make too long a code; it is the chain of the segments of the scans behind their headers and EOI; and reading it back with any suspensions gives each coefficient to the precision the script has sent, which is the image itself when all bits were sent. |
| ProgApprox.ApproxIs | tool/jpeg-8b/jchuff.c:565-650 | The precision sent: a coefficient without its bits below position p, those of its magnitude for an AC coefficient, which rounds towards zero, and those of the number for a DC coefficient, which rounds down. |
| ProgTransmit.SmallScanFits | tool/jpeg-8b/jchuff.c:1332-1341 | A scan of fewer than 9227464 symbols never has too long a code. |
| ScanScript.ValidateScript | tool/jpeg-8b/jcmaster.c:338-469 | Accepts exactly the scripts that follow the rules and says rightly whether they are progressive. The scan it blames is the first to break a rule, in a sequential script also by repeating a component; when it blames missing data, all scans are in order and some component is left out. |
| ScriptHistory.AcceptsIff | tool/jpeg-8b/jcmaster.c:376-462 | The rules of progressive scripts from the scans alone: one to four components in order, parameters in range, DC alone or AC of one component; AC after DC; Ah 0 when no scan before had the coefficient, and else Ah the Al of the last one that had it and Al one less; and a DC scan of each component. |
| ScriptBits.EachBitOnce | tool/jpeg-8b/jcmaster.c:376-462 | In every accepted progressive script the scans of a coefficient start with Ah 0 and lower Al by one each time, each with Ah the last Al, so no bit is sent twice; a DC coefficient is always sent. |
| ScriptBits.FirstScanIsDc | tool/jpeg-8b/jcmaster.c:376-462 | The first scan of every accepted script starts at coefficient 0 with Ah 0. |
| ScriptBits.ReduceScript | tool/jpeg-8b/jcmaster.c:473-502 | In place: the scans that are left, in order, with Se cut. |
| ScriptBits.ReducedTouches | tool/jpeg-8b/jcmaster.c:473-502 | They touch each coefficient that is left exactly as before, and no other. |
| SimpleProgression.SimpleProgression | tool/jpeg-8b/jcparam.c:559-630 | For every number of components: as many entries as announced, each entry with its components, band and bits written out, a script that is accepted, and every coefficient sent down to bit 0. |
| PassMaster.Compress | tool/jpeg-8b/jcapimin.c:155-189 | For any scans and options, also transcoding: ends in an error exactly when arithmetic optimisation is asked for or lines are missing, and otherwise has done exactly the scheduled events, which give each scan the passes that ScheduleIsRight says. |
| PassMaster.ScheduleIsRight | tool/jpeg-8b/jcmaster.c:645-707 | Each scan is output once, its start followed by its header, for the first scan with the frame header between, and its end. A statistics pass of it comes right before that, and once, exactly when coding is optimised and its Ss is not 0 or its Ah is 0. |
| PassMaster.HeadersInOrder | tool/jpeg-8b/jcmaster.c:645-779 | In the schedule each scan header comes once, in order. |
| PassMaster.FrameHeaderFirst | tool/jpeg-8b/jcmaster.c:645-779 | The frame header comes once, right before the first scan header and behind the first scan's statistics. |
| ContextPrep.PrepController.PreProcessContext | tool/jpeg-8b/jcprepct.c:197-261 | For any rows offered and any room: each row group passed on is seen between the groups above and below it, with the image's first and last rows repeated, and how much is taken and passed on is stated exactly. |
| ContextPrep.AdvanceIs | tool/jpeg-8b/jcprepct.c:197-261 | What is taken and passed on is determined: either all there is room for is passed on, with no more rows taken than that needs, or all rows offered are taken and the next group is not complete. |
| ContextPrep.PrepareImage | tool/jpeg-8b/jcprepct.c:197-308 | So for an image in any pieces, from the first group on, with the total exactly as far as the pieces and rooms allow. Row i of group g is row g v - v + i of the image, or its first or last one where there is none. |
| ContextPrep.EnoughRoom | tool/jpeg-8b/jcprepct.c:197-261 | When all rows are offered and there is room for the image, all rows are taken and the groups passed on cover them. |
| MainController.MakeFunnyPointers | tool/jpeg-8b/jdmainct.c:195-234 | The two lists show the workspace straight and with its last row groups swapped, the first row repeated above. |
| MainController.Controller.ProcessData | tool/jpeg-8b/jdmainct.c:385-447 | In any state of the machine and for any room: the groups passed on are the next ones in order, each between its true neighbours as far as rows are shown; whenever an iMCU row is ready and there is room, at least one is passed on. |
| MainController.DecompressRows | tool/jpeg-8b/jdmainct.c:385-447 | For every height, two or more row groups in an iMCU row and any sequence of calls: the groups come in order and once each from the first, never more than there are, and all of them when there were enough calls. Row k of group g is row g r - r + k, or the first one above the image; below it the last one, or a dummy row before the last iMCU row. |
| MainController.DummyRowPassedOn | tool/jpeg-8b/jdmainct.c:266-299 | An image of five rows for which the controller passes on a dummy row below the second group. |
| FunnyPointers.ExactIff | tool/jpeg-8b/jdmainct.c:266-299 | The window of group g is exact for every content of the image if and only if g + 1 is not the first group of the last iMCU row, or that group is full of image rows, or there are no rows below the image. |
| FunnyPointers.NextRowsRight | tool/jpeg-8b/jdmainct.c:238-299 | The rows next to a group are always the true ones or the repeated edge. |
| YccRgb.NearestTerms | tool/jpeg-8b/jdcolor.c:70-105 | For all Cb and Cr the red and blue terms are those of the conversion rounded to the nearest integer, and the green term is within 0.502 of its own. |
| YccRgb.ConvertRow | tool/jpeg-8b/jdcolor.c:119-156 | Of every pixel byte 0 is y + 1.402 (cr - 128) and byte 2 is y + 1.772 (cb - 128), rounded to the nearest integer and limited to a byte, and byte 1 is y - 0.34414 (cb - 128) - 0.71414 (cr - 128) within 0.502, limited. |
| YccRgb.IdctLimit | tool/jpeg-8b/jdmaster.c:231-256 | For all results of the transform from -512 to 511, looking them up masked, as the inverse transforms do, is adding the centre and clamping. |
| MergedUpsample.MergedUpsampler.Upsample | tool/jpeg-8b/jdmerge.c:144-358 | For room for one row or more: as many rows as fit, the row that is next first, which of two comes from the spare row, and when the input advances. The bytes of pixel i of each row delivered are those that ConvertRow states for luma sample i of that row and chroma samples i / 2. |
| SepUpsample.SepUpsampler.Upsample | tool/jpeg-8b/jdsample.c:90-141 | The same of the separate upsampler with its buffers and the conversion, pixel for pixel. |
| UpsampleRuns.SameEitherWay | tool/jpeg-8b/jdmerge.c:144-358 | For every width, height, image and sequence of nonzero requests, in 2h1v and 2h2v: the merged upsampler delivers the same rows as separate upsampling and conversion, in the same portions. Each row of the image is its own luma row with the chroma row of its group, pixel for pixel. |
| NaturalOrders.IsScanOrder | tool/jpeg-8b/jutils.c:24-117 | The order of each block size visits different places within the block's corner, from place 0. |
| NaturalOrders.PlaceOf | tool/jpeg-8b/jutils.c:24-117 | And it visits every place of the corner. |
| NaturalOrders.IsZigzag | tool/jpeg-8b/jutils.c:24-117 | In a zigzag: diagonal by diagonal, down the odd ones and up the even ones. |
| MarkerWriter.Writer.EmitDqt | tool/jpeg-8b/jcmarker.c:145-182 | A table is written once only, with two bytes for each value exactly when one that is used exceeds 255, and the result is this precision. |
| MarkerReader.MarkerReader.NextMarker | tool/jpeg-8b/jdmarker.c:911-954 | Stops at the first marker that is neither a stuffed zero nor a fill byte; none is passed over. |
| MarkerReader.MarkerReader.GetDqt | tool/jpeg-8b/jdmarker.c:495-581 | On any input: takes exactly the declared length or nothing. What emit_dqt writes becomes the table. |
| MarkerReader.MarkerReader.GetDht | tool/jpeg-8b/jdmarker.c:424-491 | The same for emit_dht: that table alone changes. |
| MarkerReader.MarkerReader.GetDac | tool/jpeg-8b/jdmarker.c:378-413 | The same for any entries: the conditioning they make, or the error of the first bad one. |
| MarkerReader.MarkerReader.GetSof | tool/jpeg-8b/jdmarker.c:238-300 | The same for a frame, or exactly the error it calls for. |
| MarkerReader.MarkerReader.GetSos | tool/jpeg-8b/jdmarker.c:304-373 | The same for a scan: each component by the first with its number, tables assigned in order. |
| MarkerBytes.SofBytes | tool/jpeg-8b/jcmarker.c:283-310 | A frame header byte by byte: length, precision, height, width, the number of components, and of each its number, the sampling factors in one byte and the quantization table. |
| MarkerBytes.SosBytes | tool/jpeg-8b/jcmarker.c:314-345 | A scan header byte by byte: length, number of components, of each its number and in one byte its DC table if Ss and Ah are 0 and its AC table if Se is not 0, and the parameters. |
| MarkerBytes.DqtBytes | tool/jpeg-8b/jcmarker.c:145-182 | A quantization table byte by byte: length, precision and number, and the values in the order of the block size, in two bytes each exactly when one of them exceeds 255. |
| MarkerBytes.DacBytesAre | tool/jpeg-8b/jcmarker.c:250-266 | Each table that the scan needs has an entry, where its place in the order of the tables says: its number and its bounds L + 16 U, or 16 plus its number and its Kx. |
| MarkerRoundTrip.QuantRoundTrip | tool/jpeg-8b/jcmarker.c:145-182 | Behind and before any bytes, for every block size: the table that is read has the values in use and 1 everywhere else, and no other table changes. |
| MarkerRoundTrip.StoredAt | tool/jpeg-8b/jdmarker.c:514-571 | Whatever table was there before. |
| MarkerRoundTrip.HuffRoundTrip | tool/jpeg-8b/jcmarker.c:186-216 | The counts and all symbols that have codes come back, for any table that can be sent. |
| MarkerRoundTrip.ConditioningRoundTrip | tool/jpeg-8b/jcmarker.c:224-267 | When no bounds that the scan needs are the wrong way round, the bounds of the DC table of each component come back if Ss and Ah are 0, the Kx of its AC table if Se is not 0, and all other conditioning stays; exactly otherwise the reader refuses it. |
| MarkerRoundTrip.BoundsRefused | tool/jpeg-8b/jdmarker.c:402-407 | Bounds 5 and 1 of a table in use, which the writer takes, are refused. |
| Markers.DacRestores | tool/jpeg-8b/jdmarker.c:378-413 | The same on values, from any conditioning there was before. |
| MarkerRoundTrip.IntervalRoundTrip | tool/jpeg-8b/jcmarker.c:271-279 | The restart interval comes back exactly when it is at most 65535. |
| MarkerRoundTrip.IntervalCut | tool/jpeg-8b/jcmarker.c:271-279 | An interval of 65536 is read back as 0. |
| MarkerRoundTrip.FrameRoundTrip | tool/jpeg-8b/jcmarker.c:283-310 | The frame comes back exactly when its sizes fit, are not zero and there are components. |
| MarkerRoundTrip.ScanRoundTrip | tool/jpeg-8b/jcmarker.c:314-345 | A scan header behind its frame header: its parameters come back, each component as the first with its number, and so all components exactly when each is the first with its number; then each has its own DC table if Ss and Ah are 0 and its own AC table if Se is not 0, and 0 otherwise. Without components only in a progressive frame. |
| ScanHeaders.ArithHeadersRoundTrip | tool/jpeg-8b/jcmarker.c:574-609 | Frame header, conditioning and scan header one after the other: both of the above hold of one reader. |
| ScanHeaders.ArithScanIsRead | tool/jpeg-8b/jcmarker.c:314-345 | The sequential arithmetic-coded scan that a decoder sets up from what it has read takes, for all blocks and any restart interval, the decisions that the encoder codes, in the same segments. |
| ScanHeaders.HuffScanIsRead | tool/jpeg-8b/jcmarker.c:314-345 | The sequential Huffman scan that it sets up takes the same symbols from the tables of the same numbers. |
| ScanHeaders.ScriptTablesAreRead | tool/jpeg-8b/jcmarker.c:336-343 | The tables that a progressive scan uses are those that its header tells the reader. |
| MarkerRoundTrip.SameNumber | tool/jpeg-8b/jdmarker.c:332-346 | Of two components with one number, the scan of the second is read as one of the first. |

## Left out
- ArithInterval.StreamDeterminesBits: speaks of the unbounded intervals only, because it is the step that both coders' rows build on; registers, byte input and output are in ArithEncoder, ArithDecoder and ArithCodec.
- HuffGen.GenOptimalTable: requires at most 254 used symbols, because with more the UINT8 counts of the original can wrap, and at least one, because with none its search for the longest code (jchuff.c:1366-1367) runs below the array.
- HuffShortest.NoLongerThanOptimal: says nothing when an optimal length exceeds 16, because the adjustment is not optimal then (jchuff.c:1241-1249); HuffGen.LimitLengths says which it is.
- HuffSeqDecoder.DecodeBlock: says nothing of the coefficients after the data have run out, when the original goes on with zero bits and a warning.
- ProgAcRefineDecoder.DecodeAcRefine: is about data whose runs stay inside the band; corrupt runs are not modelled.
- FunnyPointers.NextRowsRight: is about one row on each side, because further rows may be dummy rows; FunnyPointers.ExactIff says when.
- MergedUpsample.MergedUpsampler.Upsample: requires that rows of the image are left; called again after the last one, the original would hand out its spare row.
- MarkerRoundTrip.HuffRoundTrip: the symbols beyond those that have codes are not sent, and what the reader has there is left open.
- ArithMcuEncoder.ScanEncoder.EncodeMcu: like ArithMcuDecoder.ScanDecoder.DecodeMcu, clears all statistics at a restart where the original clears those of the scan's own tables; ArithSegments.ClearingIsEnough says that this is the same for jpeg_aritab.
- HuffDecode.DecodeSymbol: does not say how many bits a suspended call has taken; the state that was saved is what the caller returns to.
- The progressive MCU routines of the arithmetic coder (jcarith.c:356-678, jdarith.c:225-495); its sequential ones are modelled.
- Arithmetic magnitudes that need more than 15 bits, which the encoder does not produce for 8-bit samples, and overflow of the counters of pending bytes.
- Dummy blocks at the right and bottom edge of interleaved scans: each scan of a script is given its blocks.
- Overflow of the DC prediction on corrupt data.
- Going on after a wrong restart marker (jpeg_resync_to_restart); the model stops there.
- Suspension of the destination on output; the destination is a growing byte string.
- The source of data is a byte string of which any part has arrived; files, warnings, trace messages and progress reports are left out.
- An entry of a scan's component list beyond comps_in_scan, which fill_a_scan leaves as it was, is 0.
- APPn, COM and SOI markers, the file header, and read_markers, which only chooses the routine for a code; MarkerRoundTrip takes its place.
- Single-pass routines without context rows (pre_process_data, process_data_simple_main), which keep no rows from call to call.
- The forward and inverse transforms, colour conversion of the compressor, downsampling and quantization: arithmetic on one block or one pixel.
- Command line programs, and the camera and display programs of the repository.
