# ePixViewer descramblers and frame analysis, in Dafny

ePixViewer is the live display of SLAC's ePix detector family. For every
frame it does three things, and this model covers all three:

- A per-sensor receiver **descrambles** the raw readout into an image. It
  skips the header and checks the length, falling back to a zero image when
  the length is wrong. It unpacks 12-bit samples and permutes lanes and
  clusters. It reassembles banks and quadrants and patches a row-shift bug.
  It flips the image and masks each pixel.
- The receiver's base class runs the per-frame **analysis** in `process`:
  - dark-frame collection and subtraction;
  - the crosshair drawn into the displayed copy;
  - the cursor pixel's time plot;
  - the bounded deques behind the histogram, the automatic contrast and the
    noise colormap;
  - the histogram and its bins.
- Two small **decoders** handle the environmental-monitor payload and the
  generic environment receiver.

The modules follow the program:

- `Bits` and `Unpack12` hold the bit arithmetic and `read_uint12` with its
  inverse.
- `LaneMaps` is one parameterised builder for the cluster and lane maps of
  the ePixUHR family and SparkPix-RT.
- `Uhr` holds the ePixUHR and SparkPix-RT descramblers.
- `HrMv2` holds both ePixHR-Mv2 receivers. `HrBanks` holds the ePixHR 10k
  bank descramblers, and `Epix100` the ePix100a and ePix100p descramblers.
- `Subframes` holds Tixel, Cpix2, ePixM32, ADC32x32, cryo64xN and
  ePixHrEpixM.
- `EnvMonitoring` and `EnvReceivers` are the decoders.
- `Deques`, `Histograms` and `Analysis` are the analysis state machine.
  `Analysis.AnalysisReceiver` is a class whose `Process` is proved equal to
  the value-level `Step`, and properties are proved about `Step`.
- `Buffers` is the caller's `bytearray`, which the header pops consume in
  place. `Common` holds the numpy helpers.

Word and byte payloads are sequences of naturals. Pixel values in the
analysis are reals, because dark subtraction makes them fractional. Where
the source works in a fixed width, the model spells it out: the int16 and
int32 cells, the float division stored into an integer cell, the 28-bit
tick field, and the crosshair value as the displayed view's cells store it.

## Model

In the source column, `_dataReceiver.py` is `software/_dataReceiver.py` and
`dataReceivers.py` is `software/epix_viewer/dataReceivers.py`.

| member | source | states |
|---|---|---|
| Bits.AndBounded | software/deviceFiles/ePixUhr.py:104 | a bitwise AND with the pixel mask never exceeds either operand |
| Bits.AndLowMask | python/ePixViewer/_envDataReceiver.py:126 | AND with 2^k - 1 keeps exactly the k low bits (the remainder mod 2^k) |
| Bits.DefaultMaskKeeps12Bit | software/_dataReceiver.py:61-65 | the default PixelBitMask 0x7fff leaves every 12-bit sample unchanged |
| Bits.GainFoldBijective | python/ePixViewer/asics/ePixUhr100kHz.py:107-108 | the gain fold is a bijection on 0..4095 whose inverse is `GainUnfold`, and it sends exactly the odd samples to the upper half |
| Bits.LittleEndianBound | software/_envMonitoring.py:65 | n bytes decode little-endian to a value below 256^n |
| Bits.Int32 | software/_envMonitoring.py:61-65 | storing into an int32 cell gives a value in -2^31..2^31-1 that is congruent to the stored one mod 2^32 |
| Bits.Int16 | python/ePixViewer/asics/ePix100a.py:63 | an int16 reading of a 16-bit pattern lies in -2^15..2^15-1 and is congruent to it mod 2^16 |
| Bits.StoredMin64 | software/_dataReceiver.py:281 | `-sys.maxsize - 1` stored into a w-bit integer cell (numpy before 2.0) is the one value of the cell's signed or unsigned range congruent to -2^63 modulo 2^w |
| Bits.TruncDiv | software/_envMonitoring.py:66-68 | a float division stored into an integer cell rounds toward zero, on either sign |
| Unpack12.ReadUint12 | python/ePixViewer/asics/ePixUhr100kHz.py:22-27 | two samples per byte triple, every one below 4096 |
| Unpack12.Pack12 | python/ePixViewer/asics/ePixUhr100kHz.py:22-27 | the readout's packing: three bytes per two 12-bit samples (the partner of `read_uint12`) |
| Unpack12.UnpackPack | python/ePixViewer/asics/ePixUhr100kHz.py:24-27 | `read_uint12` recovers any packed sequence of 12-bit samples |
| Unpack12.PackUnpack | python/ePixViewer/asics/ePixUhr100kHz.py:24-27 | packing recovers any byte sequence of whole triples, so `read_uint12` loses nothing |
| Unpack12.ReadCons | software/deviceFiles/ePixUhr.py:21-26 | the triple in front gives (b0·16 + b1 div 16, (b1 mod 16)·256 + b2) in front, in that order |
| Unpack12.PackCons | software/deviceFiles/ePixUhr.py:21-26 | two samples in front pack to their three bytes in front |
| Unpack12.WordSamples | software/deviceFiles/ePixUhr.py:90-95 | a byte-reversed word yields wordLen/3·2 samples, all 12-bit |
| Unpack12.LaneSamples | software/deviceFiles/ePixUhr.py:89-95 | the lanes x words matrix of samples: lane l of word j is sample l of the reversed, unpacked word j |
| Unpack12.UnpackLanes | python/ePixViewer/asics/ePixUhr100kHz.py:89-98 | the column-by-column fill of `rawData_12bit` yields exactly `LaneSamples`, every sample below 4096 |
| LaneMaps.Gather | python/ePixViewer/asics/ePixUhr100kHz.py:72 | `src[idx]` has one entry per index, each the indexed element |
| LaneMaps.GatherPermutation | python/ePixViewer/asics/ePixUhr100kHz.py:72 | a permutation read through a permutation of its positions is a permutation |
| LaneMaps.SpMapInvolution | python/ePixViewer/asics/ePixUhr100kHz.py:33 | `sp_map` [0,3,6,1,4,7,2,5,8] is its own inverse |
| LaneMaps.UhrClusterMap | python/ePixViewer/asics/ePixUhr100kHz.py:31-40 | position 9i + u of the cluster map holds i + 8·sp_map[u], 72 entries |
| LaneMaps.UhrClusterMapIsPermutation | python/ePixViewer/asics/ePixUhr100kHz.py:36-37 | the cluster map is a permutation of 0..71 |
| LaneMaps.BuildUhrClusterMap | python/ePixViewer/asics/ePixUhr100kHz.py:31-40 | the scatter loop over 8 clusters fills an array equal to `UhrClusterMap` |
| LaneMaps.Split | python/ePixViewer/asics/ePixUhr100kHz.py:42-46 | the two halves of the cluster side by side (the right half optionally mirrored), read back row by row |
| LaneMaps.SplitIsPermutation | python/ePixViewer/asics/ePixUhr100kHz.py:43 | splitting a permutation (with or without the mirror) leaves a permutation |
| LaneMaps.Columns | python/ePixViewer/asics/ePixUhr100kHz.py:48-53 | block b of the column map is n·cluster + b, for b below the cluster count |
| LaneMaps.ColumnsIsPermutation | python/ePixViewer/asics/ePixUhr100kHz.py:49-50 | the column map is a permutation of 0..72n-1 when the cluster is one of 0..71 |
| LaneMaps.ColumnsBlock | python/ePixViewer/asics/ePixUhr100kHz.py:50 | one `np.append` step adds exactly the block n·cluster + b |
| LaneMaps.Lanes | python/ePixViewer/asics/ePixUhr100kHz.py:55-60 | 2·column and 2·column + 1 side by side, optionally flipped, read back row by row |
| LaneMaps.LanesIsPermutation | python/ePixViewer/asics/ePixUhr100kHz.py:56-60 | the interleave turns a permutation of 0..m-1 into one of 0..2m-1 |
| LaneMaps.LaneMap | python/ePixViewer/asics/ePixUhr100kHz.py:29-62 | the lane map of a layout has the layout's size |
| LaneMaps.LaneMapIsPermutation | python/ePixViewer/asics/ePixUhr100kHz.py:29-62 | every lane map built from a permuted cluster is a permutation of its positions |
| LaneMaps.BuildLaneMap | python/ePixViewer/asics/ePixUhr100kHz.py:48-62 | the cluster append loop followed by the interleave yields exactly `LaneMap` |
| LaneMaps.UhrLaneMapFacts | python/ePixViewer/asics/ePixUhr100kHz.py:60 | the UHR lane map has 144·numClusters entries (2016 for 14 clusters) and is a permutation |
| LaneMaps.MhzLaneMapFacts | python/ePixViewer/asics/ePixUHRMHzMode.py:28-57 | the MHz cluster reads [0,4,1,5,2,6,3,7], and its lane map has 224 entries and is a permutation |
| LaneMaps.BuildUhrLaneMap | software/deviceFiles/ePixUhr.py:28-62 | `lane_map` with its loops equals the specification lane map (with or without the mirrors of the older copy) |
| LaneMaps.BuildMhzLaneMap | software/epix_viewer/dataReceivers.py:679-708 | `lane_map_MHz` with its loops equals the MHz lane map |
| LaneMaps.SparkCluster | software/deviceFiles/sparkPixRt.py:36-47 | the SparkPix-RT cluster: identity over 72, split 12 x 6 with the right half reversed, a permutation |
| LaneMaps.RowMapTable | software/deviceFiles/sparkPixRt.py:49-51 | column j of row r holds 8·cluster[6r + j mod 6] + j div 6, a 12 x 48 table |
| LaneMaps.RowMapRT | software/deviceFiles/sparkPixRt.py:28-53 | `row_map_RT` has 576 entries, all below 576 |
| LaneMaps.RowMapRTIsPermutation | software/deviceFiles/sparkPixRt.py:28-53 | `row_map_RT` is a permutation of 0..575 |
| LaneMaps.RowMapRTAt | software/deviceFiles/sparkPixRt.py:53 | entry k is row k div 48, column k mod 48 of the table |
| LaneMaps.RowMapRTInjective | software/deviceFiles/sparkPixRt.py:28-53 | distinct positions of `row_map_RT` hold distinct entries |
| LaneMaps.BuildRowMapRT | software/deviceFiles/sparkPixRt.py:49-53 | the concatenation loop over 8 lanes, read row by row, equals `RowMapRT` |
| Uhr.FoldGain | python/ePixViewer/asics/ePixUhr100kHz.py:107-108 | every pixel passed through the gain fold, shape kept |
| Uhr.MaskPixels | python/ePixViewer/asics/ePixUhr100kHz.py:110 | every pixel ANDed with the mask, shape kept |
| Uhr.FrameSource | python/ePixViewer/asics/ePixUhr100kHz.py:64-77 | pixel (r, j) reads lane j div cols, sample 1 + laneMap[r·cols + j mod cols], which exists |
| Uhr.FrameReorder | python/ePixViewer/asics/ePixUhr100kHz.py:64-77 | `frame_reorder` gives a rows x 16·cols matrix, with each pixel the lane sample `FrameSource` names |
| Uhr.FrameSourceInjective | python/ePixViewer/asics/ePixUhr100kHz.py:70-72 | no lane sample lands in two pixels |
| Uhr.FrameSourceCovers | python/ePixViewer/asics/ePixUhr100kHz.py:70 | every sample but the first of every lane lands in some pixel, so only sample 0 is dropped |
| Uhr.FrameReorderLoop | python/ePixViewer/asics/ePixUhr100kHz.py:68-75 | the lane loop's concatenation equals `FrameReorder` |
| Uhr.VariantLaneMap | software/deviceFiles/ePixUhr.py:28-62 | each variant's lane map is a permutation sized rows·cols (rows = 12·clusters, or 56 in MHz mode) |
| Uhr.UhrFrame | software/deviceFiles/ePixUhr.py:97-100 | the reordered frame has the variant's shape and 12-bit pixels |
| Uhr.Orient | python/ePixViewer/asics/ePixUhr100kHz.py:105 | `flip(frame, 0)`, then `flip(_, 1)` when both axes flip: pixel (r, c) is frame (rows-1-r, c or cols-1-c) |
| Uhr.Finish | python/ePixViewer/asics/ePixUhr100kHz.py:107-110 | the optional fold then the mask, shape kept |
| Uhr.UhrImage | software/deviceFiles/ePixUhr.py:80-104 | a payload shorter than 16 + 24·words bytes fails the reshape; otherwise the image has the variant's shape |
| Uhr.UhrWordCounts | software/epix_viewer/dataReceivers.py:642-646 | 2017 words and 168 x 192 for ePixUHR, 225 words and 56 x 64 in MHz mode, 144·n + 1 words at 100 kHz |
| Uhr.UhrPixel | python/ePixViewer/asics/ePixUhr100kHz.py:80-110 | image pixel (r, c) is the masked, optionally folded lane sample behind it (folded only on the 100 kHz receiver with GainMSB) |
| Uhr.UhrSample | software/deviceFiles/ePixUhr.py:97-102 | the lane sample behind image pixel (r, c) is a 12-bit value |
| Uhr.Descramble | software/deviceFiles/ePixUhr.py:80-104 | the unpack loop, the lane loop, the flips, fold and mask compute exactly `UhrImage` |
| Uhr.RowReorder | software/deviceFiles/sparkPixRt.py:55-65 | channels 3, 2, 1, 0, each with three samples dropped and 576 gathered through the row map: 2304 values |
| Uhr.RowReorderExactlyOnce | software/deviceFiles/sparkPixRt.py:57-64 | every sample from the fourth on of every channel is used exactly once |
| Uhr.RowReorderLoop | software/deviceFiles/sparkPixRt.py:56-65 | the channel loop of `row_reorder_RT` equals `RowReorder` |
| Uhr.SparkFrame | software/deviceFiles/sparkPixRt.py:87-89 | the reshaped stream is 48 x 48 |
| Uhr.SparkFrameBounded | software/deviceFiles/sparkPixRt.py:87-89 | every cell of the reshaped stream is a 12-bit sample |
| Uhr.SparkImage | software/deviceFiles/sparkPixRt.py:68-97 | a payload shorter than 3490 bytes fails; otherwise the image is 48 x 48 |
| Uhr.SparkPixel | software/deviceFiles/sparkPixRt.py:91-97 | pixel (r, c) comes from frame row 47 - r, which is channel 3 - (47 - r) div 12, folded when GainMSB is set, then masked |
| Uhr.SparkDescramble | software/deviceFiles/sparkPixRt.py:68-97 | the loops compute exactly `SparkImage` |
| HrMv2.BankIndex | software/deviceFiles/ePixHrMv2.py:36 | ((col+1) mod 2·1536 + 32·row + col div 2)·24 + bank is a word index below 73728 |
| HrMv2.BankPixelOf | software/deviceFiles/ePixHrMv2.py:36 | the bank pixel a word index carries is a valid bank, row and column |
| HrMv2.BankIndexInverse | software/deviceFiles/ePixHrMv2.py:32-36 | the bank-index formula is a bijection between bank pixels and words 0..73727 |
| HrMv2.QuadrantBank | software/deviceFiles/ePixHrMv2.py:51-62 | frame position (R, C) lies in bank 4·(C div 64) + R div 48 |
| HrMv2.QuadrantPosition | software/deviceFiles/ePixHrMv2.py:51-62 | a bank pixel lands inside the 192 x 384 frame |
| HrMv2.QuadrantInverse | software/deviceFiles/ePixHrMv2.py:51-62 | the quadrant layout is a bijection between frame positions and bank pixels |
| HrMv2.Reassemble | software/deviceFiles/ePixHrMv2.py:51-62 | 24 banks of 48 x 64 reassemble into 192 x 384 |
| HrMv2.ReassembleAt | software/deviceFiles/ePixHrMv2.py:52-62 | position (R, C) holds pixel (R mod 48, C mod 64) of bank i + 4·(C div 64), where quadrant i = R div 48 |
| HrMv2.IndexImage | software/deviceFiles/ePixHrMv2.py:31-62 | `descarambledImg` holds, at each frame position, the word the formula gives for its bank pixel |
| HrMv2.IndexImageBijective | software/deviceFiles/ePixHrMv2.py:31-62 | every frame position holds exactly one word, and every word has exactly one position |
| HrMv2.IndexImageInjective | software/deviceFiles/ePixHrMv2.py:31-62 | two frame positions never hold the same read-out word |
| HrMv2.WordPositionHoldsWord | software/deviceFiles/ePixHrMv2.py:31-62 | every read-out word is held by its reassembled position |
| HrMv2.RowLutInvolution | software/deviceFiles/ePixHrMv2.py:66-77 | the row fix is an involution on 0..191 that never leaves a quadrant and fixes every row but a bank's first and last |
| HrMv2.BuildRowLut | software/deviceFiles/ePixHrMv2.py:66-77 | the identity fill then the eight swaps give exactly `RowLut` |
| HrMv2.LookupRow | software/deviceFiles/ePixHrMv2.py:84 | a word's target row is a frame row |
| HrMv2.LookupCol | software/deviceFiles/ePixHrMv2.py:85 | a word's target column is a frame column |
| HrMv2.WordAt | software/deviceFiles/ePixHrMv2.py:81-85 | the word that lands at (R, C) is a valid word index |
| HrMv2.LookupInverse | software/deviceFiles/ePixHrMv2.py:81-89 | the lookup tables and `WordAt` are inverse: every word lands once and every pixel is written once |
| HrMv2.LookupPlacement | software/deviceFiles/ePixHrMv2.py:81-89 | the reshaped tables send the 192 x 384 read-out positions to distinct frame positions |
| HrMv2.Mv2Image | software/deviceFiles/ePixHrMv2.py:91-105 | always 192 x 384, and all zeros for any payload length other than 73752 |
| HrMv2.Mv2Placement | software/deviceFiles/ePixHrMv2.py:96-105 | word k after the 24-word header lands at (lookupTableRow[k], lookupTableCol[k]), masked |
| HrMv2.Mv2ImageAt | software/deviceFiles/ePixHrMv2.py:103-105 | pixel (R, C) of a full frame is the masked word the tables send there |
| HrMv2.Scatter | software/deviceFiles/ePixHrMv2.py:103 | the fancy-index assignment writes img[R][C] at (rowT[R][C], colT[R][C]) of a fresh 192 x 384 array |
| HrMv2.MaskFrame | software/deviceFiles/ePixHrMv2.py:105 | `bitwise_and` of the scatter target, cell by cell |
| HrMv2.Mv2Source | software/deviceFiles/ePixHrMv2.py:96-105 | the scatter puts at (R, C) entry WordAt(R, C) of `imgDesc`, masked |
| HrMv2.HrMv2Receiver.constructor | software/deviceFiles/ePixHrMv2.py:14-89 | the constructor's loops build the specification tables |
| HrMv2.HrMv2Receiver.Descramble | software/deviceFiles/ePixHrMv2.py:91-105 | the length check, the scatter into zeros and the mask compute exactly `Mv2Image` |
| HrMv2.Duople | software/epix_viewer/dataReceivers.py:508-514 | the even indices below 2·half, then the odd ones |
| HrMv2.Unduople | software/epix_viewer/dataReceivers.py:508-514 | the inverse position in the duople order lies below 2·half |
| HrMv2.DuopleInverse | software/epix_viewer/dataReceivers.py:508-514 | the duople order is a permutation with `Unduople` as its inverse |
| HrMv2.LegacyRow | software/epix_viewer/dataReceivers.py:517-535 | `imgDescRow` sends reassembled row R to a frame row |
| HrMv2.LegacyCol | software/epix_viewer/dataReceivers.py:516-535 | `imgDescCol` sends reassembled column C to a frame column |
| HrMv2.LegacyRowInverse | software/epix_viewer/dataReceivers.py:508-535 | the older row table de-interleaves each 48-row block, a bijection on 0..191 |
| HrMv2.LegacyColInverse | software/epix_viewer/dataReceivers.py:512-535 | the older column table de-interleaves each 64-column block, a bijection on 0..383 |
| HrMv2.LegacyRowTable | software/epix_viewer/dataReceivers.py:521-535 | the pasted row table holds LegacyRow(R) at every (R, C) |
| HrMv2.LegacyColTable | software/epix_viewer/dataReceivers.py:520-535 | the pasted column table holds LegacyCol(C) at every (R, C) |
| HrMv2.LegacyPlacement | software/epix_viewer/dataReceivers.py:508-535 | the older tables map the 192 x 384 positions onto themselves bijectively |
| HrMv2.LegacyWord | software/epix_viewer/dataReceivers.py:544-558 | the word of a reassembled position in the older layout is below 73728 |
| HrMv2.LegacyWordInjective | software/epix_viewer/dataReceivers.py:544-558 | no two reassembled positions read the same word |
| HrMv2.LegacyImgDesc | software/epix_viewer/dataReceivers.py:544-558 | the older `imgDesc` is 192 x 384 with (R, C) holding payload word 24 + LegacyWord(R, C) |
| HrMv2.LegacyCell | software/epix_viewer/dataReceivers.py:549-558 | pixel (R, C) of the reassembled banks is payload word 24 + LegacyWord(R, C) |
| HrMv2.LegacyBankAt | software/epix_viewer/dataReceivers.py:545-549 | pixel (r, c) of bank b is payload word 24 + 24·(64r + c) + b |
| HrMv2.LegacyImage | software/epix_viewer/dataReceivers.py:537-567 | always 192 x 384, and all zeros for any payload length other than 73752 |
| HrMv2.LegacyPlacementOfWord | software/epix_viewer/dataReceivers.py:565-567 | reassembled position (R, C) lands at (imgDescRow, imgDescCol), masked |
| HrMv2.LegacySource | software/epix_viewer/dataReceivers.py:565-567 | pixel (R, C) is `imgDesc` entry (LegacyUnrow(R), LegacyUncol(C)), masked |
| HrMv2.RowsPasteStep | software/epix_viewer/dataReceivers.py:535 | pasting row block (lj, li) extends the filled region of the row table by that block |
| HrMv2.ColsPasteStep | software/epix_viewer/dataReceivers.py:535 | pasting column block (lj, li) extends the filled region of the column table by that block |
| HrMv2.HrMv2LegacyReceiver.constructor | software/epix_viewer/dataReceivers.py:502-535 | the block loops build the older tables |
| HrMv2.HrMv2LegacyReceiver.Descramble | software/epix_viewer/dataReceivers.py:537-567 | the length check, reassembly, scatter and mask compute exactly `LegacyImage` |
| HrBanks.Bank | python/ePixViewer/asics/ePixHr10k2M.py:34-37 | bank b is a rows x 32 matrix |
| HrBanks.BankAt | python/ePixViewer/asics/ePixHr10k2M.py:34-37 | pixel (r, c) of bank b is word (32r + c)·stride + b |
| HrBanks.RowShift | python/ePixViewer/asics/ePixHr10k2M.py:39-40 | the patched bank keeps its shape |
| HrBanks.PatchRowShift | python/ePixViewer/asics/ePixHr10k2M.py:39-40 | in place, columns 30 and 31 shift down one row, row 0 keeps its value, and the other columns are unchanged |
| HrBanks.PatchedBank | python/ePixViewer/asics/ePixHr10k2M.py:37-40 | a bank copied into an array and patched in place reads back as `RowShift` |
| HrBanks.BankStrip | python/ePixViewer/asics/ePixHr10k2M.py:42-45 | count patched banks side by side make rows x 32·count |
| HrBanks.BankStripAt | python/ePixViewer/asics/ePixHr10k2M.py:42-45 | columns 32b..32b+31 of the strip are patched bank b |
| HrBanks.PatchedCell | python/ePixViewer/asics/ePixHr10k2M.py:37-40 | pixel (r, c) of a patched bank is word (32·SourceRow(r, c) + c)·stride + b |
| HrBanks.StripBanks | python/ePixViewer/asics/ePixHr10k2M.py:35-46 | the bank loop, patching in place and concatenating, equals `BankStrip` |
| HrBanks.Hr10k2MImage | python/ePixViewer/asics/ePixHr10k2M.py:28-49 | corrected: 144 x 768 on every path, and zeros for any length other than 110640 |
| HrBanks.Hr10k2MDropsLastBank | python/ePixViewer/asics/ePixHr10k2M.py:35 | as written, a full frame is 144 x 736: the first 736 columns of the 24-bank image |
| HrBanks.Hr10k2MWidthMismatch | python/ePixViewer/asics/ePixHr10k2M.py:35-49 | as written, a concrete full frame is 736 wide while the zero image of an empty one is 768 wide |
| HrBanks.Hr10k2MPixel | python/ePixViewer/asics/ePixHr10k2M.py:29-46 | in the corrected image every bank is shown, each at its own 32 columns, from word 24 + (32·SourceRow + c)·24 + b |
| HrBanks.Hr10k2MDescramble | python/ePixViewer/asics/ePixHr10k2M.py:21-52 | the bank loop over all 24 banks computes `Hr10k2MImage` |
| HrBanks.Single10kTImage | python/ePixViewer/asics/ePixHrSingle10kT.py:16-33 | a frame of 28038 or more words gives 146 x 192; a partial 6-word group fails the reshape; every other short frame is a descramble error |
| HrBanks.Single10kTPixel | python/ePixViewer/asics/ePixHrSingle10kT.py:19-29 | pixel (r, 32b + c) of a full frame is word 6 + 6·(32·SourceRow(r, c) + c) + b |
| HrBanks.Single10kTReceiver.constructor | python/ePixViewer/asics/ePixHrSingle10kT.py:13-14 | DescError starts at 0 |
| HrBanks.Single10kTReceiver.Descramble | python/ePixViewer/asics/ePixHrSingle10kT.py:16-33 | the loop computes `Single10kTImage`, and DescError grows by exactly 1 on a descramble error and by 0 otherwise |
| HrBanks.Hr10k2MReshape | software/deviceFiles/ePixHr10k2M.py:20-28 | 576 rows of 192 from word 6 on, or a reshape failure when fewer than 110598 words arrive |
| HrBanks.HrDuoImage | python/ePixViewer/asics/ePixHrDuo10kT.py:16-22 | rows of 384 from word 6 on; a slice that is not a whole number of rows fails; a full payload is 144 x 384 |
| Epix100.SuperRowLength | python/ePixViewer/asics/ePix100a.py:49-51 | a clipped super-row slice is at most 1536 bytes, and exactly 1536 when the data holds it |
| Epix100.RunLength | python/ePixViewer/asics/ePix100a.py:47-51 | with the whole frame present, a half of n super-rows is 1536·n bytes |
| Epix100.RunAt | python/ePixViewer/asics/ePix100a.py:47-51 | byte t of the i-th super-row of a half is byte t of the super-row that half takes i-th |
| Epix100.Order100a | python/ePixViewer/asics/ePix100a.py:47-53 | the row order has 708 entries |
| Epix100.Order100aIsPermutation | python/ePixViewer/asics/ePix100a.py:47-53 | the order (707, 705, ..., 1, then 0, 2, ..., 706) is a permutation of the 708 super-rows |
| Epix100.Descramble100aBytes | python/ePixViewer/asics/ePix100a.py:37-56 | the 32 header bytes are popped from the caller's buffer (a short buffer raises, emptied), and the result is the interleave of what remains |
| Epix100.Top100aSoFarIsRun | python/ePixViewer/asics/ePix100a.py:47-49 | after 2m passes the top half holds super-rows 707, 705, ... (m of them) |
| Epix100.Bottom100aSoFarIsRun | python/ePixViewer/asics/ePix100a.py:47-51 | after 2m passes the bottom half holds super-rows 0, 2, ... (m of them) |
| Epix100.Gather100a | python/ePixViewer/asics/ePix100a.py:45-53 | the extend loop computes the interleave |
| Epix100.Int16s | python/ePixViewer/asics/ePix100a.py:63 | `frombuffer(..., int16)`: half as many values as bytes, each the int16 of its little-endian pair |
| Epix100.Epix100aImage | python/ePixViewer/asics/ePix100a.py:58-69 | a buffer shorter than the header raises; a reshaped result is 708 x 768 |
| Epix100.Epix100aShaped | python/ePixViewer/asics/ePix100a.py:63-67 | the result is reshaped exactly when all 708 super-rows follow the header |
| Epix100.Short100a | python/ePixViewer/asics/ePix100a.py:64-65 | missing data gathers fewer than 708 super-rows of bytes, so the flat array is returned |
| Epix100.Full100a | python/ePixViewer/asics/ePix100a.py:47-53 | with all 708 super-rows present the interleave is 708·1536 bytes |
| Epix100.Interleave100aAt | python/ePixViewer/asics/ePix100a.py:47-53 | byte t of gathered row r is byte t of super-row Order100a()[r] |
| Epix100.Epix100aFull | python/ePixViewer/asics/ePix100a.py:63-67 | a full payload reshapes into the 708 x 768 int16 image |
| Epix100.Epix100aCell | python/ePixViewer/asics/ePix100a.py:63-67 | pixel (r, c) is int16 number 768r + c of the gathered bytes |
| Epix100.Epix100aPixel | python/ePixViewer/asics/ePix100a.py:37-69 | pixel (r, c) is the int16 at byte 2c of super-row 707 - 2r (top) or 2(r - 354) (bottom) after the header |
| Epix100.Descramble100a | python/ePixViewer/asics/ePix100a.py:27-32 | a fresh bytearray of the payload, descrambled, gives `Epix100aImage` |
| Epix100.Order100p | software/deviceFiles/ePix100p.py:19-27 | the row order has 706 entries |
| Epix100.Order100pIsPermutation | software/deviceFiles/ePix100p.py:19-27 | the order (0, 3, 5, ..., 705, then 1, 2, 4, ..., 704) is a permutation of the 706 super-rows |
| Epix100.Descramble100p | software/deviceFiles/ePix100p.py:16-29 | the 32 header bytes are popped from the frame (a short one raises, emptied), and the result is the bottom half then the top half |
| Epix100.Bottom100pSoFarIsRun | software/deviceFiles/ePix100p.py:19-23 | after the passes below 2q the bottom half holds super-rows 0, 3, 5, ... (q of them) |
| Epix100.Top100pSoFarIsRun | software/deviceFiles/ePix100p.py:20-25 | after the passes below 2q the top half holds super-rows 1, 2, 4, ... (q of them) |
| Epix100.Gather100p | software/deviceFiles/ePix100p.py:19-27 | the extend loop computes the interleave |
| Epix100.Epix100pFullFrame | software/deviceFiles/ePix100p.py:19-28 | a full frame yields 706·1536 bytes, byte t of row i from super-row Order100p()[i] |
| Subframes.Tile | software/epix_viewer/deviceFiles/tixel48x48.py:18-19 | sub-frame k after its 4 leading elements, as rows x cols |
| Subframes.TileAt | software/epix_viewer/deviceFiles/tixel48x48.py:18-25 | tile pixel (r, c) is element 4 + cols·r + c of sub-frame k |
| Subframes.Quadrants | software/epix_viewer/deviceFiles/tixel48x48.py:26-28 | tiles 0 and 1 over tiles 2 and 3 make 96 x 96 |
| Subframes.QuadrantSource | software/epix_viewer/deviceFiles/tixel48x48.py:18-28 | the sub-frame and element a pixel reads lie within the four 48 x 48 payloads |
| Subframes.QuadrantsAt | software/epix_viewer/deviceFiles/tixel48x48.py:18-28 | pixel (R, C) is the element `QuadrantSource` names |
| Subframes.QuadrantSourceInjective | software/epix_viewer/deviceFiles/tixel48x48.py:26-28 | no two pixels read the same element |
| Subframes.QuadrantSourceCovers | software/epix_viewer/deviceFiles/tixel48x48.py:26-28 | every pixel element of the four sub-frames is read by some pixel |
| Subframes.OddOnlyKeepsOdd | software/epix_viewer/deviceFiles/tixel48x48.py:31 | the filter keeps exactly the odd values and zeroes the even ones |
| Subframes.TixelImage | software/epix_viewer/deviceFiles/tixel48x48.py:16-32 | 96 x 96 on both paths; only four sub-frames of the wrong size fail |
| Subframes.TixelPixel | software/epix_viewer/deviceFiles/tixel48x48.py:16-32 | a pixel is its quadrant element when that is odd and 0 otherwise; a wrong sub-frame count gives zeros |
| Subframes.Cpix2Image | software/epix_viewer/dataReceivers.py:419-434 | the Tixel tiling without the filter, 96 x 96 on both paths |
| Subframes.Halves | software/epix_viewer/deviceFiles/ePixM32Array.py:18-24 | sub-frame 0 as the left half and sub-frame 1 as the right |
| Subframes.HalvesAt | software/epix_viewer/deviceFiles/ePixM32Array.py:18-24 | pixel (r, h·cols + c) is element 4 + cols·r + c of sub-frame h |
| Subframes.HalvesImage | python/ePixViewer/asics/adc32x32.py:18-29 | rows x 2·cols on both paths; only two sub-frames of the wrong size fail |
| Subframes.M32Image | software/epix_viewer/deviceFiles/ePixM32Array.py:16-27 | 64 x 64 on both paths, zeros unless there are exactly two sub-frames |
| Subframes.Adc32Image | python/ePixViewer/asics/adc32x32.py:18-29 | 32 x 64 on both paths, zeros unless there are exactly two sub-frames |
| Subframes.Words16 | software/deviceFiles/cryo64xN.py:17-18 | little-endian uint16 words, half as many as bytes, failing on an odd length |
| Subframes.Transpose | software/deviceFiles/cryo64xN.py:24 | the transpose swaps the axes cell by cell |
| Subframes.CryoImage | software/deviceFiles/cryo64xN.py:19-25 | 64 x samples when (n - 6)/64 is whole, and a 64 x 64 zero image otherwise |
| Subframes.ChannelSplit | software/deviceFiles/cryo64xN.py:24 | the even channels then the odd ones, 64·samples values |
| Subframes.ChannelSplitAt | software/deviceFiles/cryo64xN.py:24 | element r·samples + t of the split is channel Channel(r) of sample t |
| Subframes.CryoPixel | python/ePixViewer/asics/cryo64xN.py:22-23 | pixel (r, t) is word 6 + 64t + Channel(r): row k < 32 is channel 2k and row 32 + k is channel 2k + 1 |
| Subframes.CryoSourceInjective | software/deviceFiles/cryo64xN.py:23-24 | no two pixels of the split read the same word |
| Subframes.CryoSourceCovers | software/deviceFiles/cryo64xN.py:23-24 | every word after the header is read by some pixel |
| Subframes.CryoDescramble | python/ePixViewer/asics/cryo64xN.py:16-24 | fails only on an odd byte count |
| Subframes.EpixMDescramble | software/epix_viewer/dataReceivers.py:489-499 | fails only on an odd byte count |
| Subframes.EpixMPixel | software/epix_viewer/dataReceivers.py:497-499 | ePixHrEpixM pixel (t, c) is cryo64xN pixel (c, t), the word of sample t, channel Channel(c) |
| Buffers.ByteBuffer.PopFront | python/ePixViewer/asics/ePix100a.py:42 | `pop(0)` removes and returns the first byte, and raises on an empty buffer |
| Buffers.ByteBuffer.DropHeader | python/ePixViewer/asics/ePix100a.py:41-42 | n pops remove the first n bytes, or all of them before the failing pop |
| Buffers.ByteBuffer.constructor | python/ePixViewer/asics/ePix100a.py:28 | `bytearray(frame)` holds exactly the frame's bytes |
| EnvMonitoring.WordBytes | software/_envMonitoring.py:65 | `rawData[4j:4j+4]`, clipped like a Python slice |
| EnvMonitoring.Word32 | software/_envMonitoring.py:65 | the little-endian value of the clipped word is below 2^32 |
| EnvMonitoring.Word32Decodes | software/_envMonitoring.py:65 | `Word32` at 4j is `int.from_bytes` of the clipped slice of word j |
| EnvMonitoring.Raw | software/_envMonitoring.py:61-65 | `envData[j]` is word j as an int32 cell holds it |
| EnvMonitoring.Channels | software/_envMonitoring.py:64-68 | eight channel values |
| EnvMonitoring.Readings | software/_envMonitoring.py:59-68 | eight published values for a payload that carries the header |
| EnvMonitoring.LeBytes | software/_envMonitoring.py:65 | a value laid out as n little-endian bytes (the partner of the decode) |
| EnvMonitoring.LeBytesDecode | software/_envMonitoring.py:65 | little-endian decoding undoes `LeBytes` for every value that fits |
| EnvMonitoring.Encode | software/_envMonitoring.py:64-65 | eight values as consecutive 4-byte words |
| EnvMonitoring.RawEncode | software/_envMonitoring.py:64-65 | decoding word j of an encoding gives back value j |
| EnvMonitoring.ReadingsEncode | software/_envMonitoring.py:62-76 | whatever the header, eight encoded int32 readings are published as themselves, with channels 0..2 divided by 100 toward zero |
| EnvMonitoring.EnvMonitor.Fields | software/_envMonitoring.py:69-76 | the eight published fields in channel order |
| EnvMonitoring.EnvMonitor.constructor | software/_envMonitoring.py:69-76 | every field starts at 0 and `Updated` is down |
| EnvMonitoring.EnvMonitor.Publish | software/_envMonitoring.py:69-77 | the fields take the values in channel order and `Updated` is raised |
| EnvMonitoring.EnvMonitor.Process | software/_envMonitoring.py:57-77 | a short payload raises in the pops with nothing published; otherwise the fields are `Readings(payload)` and `Updated` is raised |
| EnvReceivers.Subst | python/ePixViewer/_envDataReceiver.py:77-80 | what the chain does to one character contains no special character |
| EnvReceivers.SubstAll | python/ePixViewer/_envDataReceiver.py:77-80 | the character-by-character reference rewrite contains no special character |
| EnvReceivers.ReplaceAbsent | python/ePixViewer/_envDataReceiver.py:77-80 | `replace` leaves a name without the pattern character alone |
| EnvReceivers.SanitizeAppend | python/ePixViewer/_envDataReceiver.py:77-80 | the chain works on the two halves of a concatenation separately |
| EnvReceivers.SanitizePlain | python/ePixViewer/_envDataReceiver.py:77-80 | a name with no special character passes unchanged |
| EnvReceivers.SanitizeChar | python/ePixViewer/_envDataReceiver.py:77-80 | on one character the chain is `Subst`: ' ', '(' and '[' become '_', ')', ']', '.' and '-' go, and '%' becomes "percent" |
| EnvReceivers.SanitizeIsSubstAll | python/ePixViewer/_envDataReceiver.py:76-80 | the replace chain equals the independent per-character rewrite |
| EnvReceivers.SanitizeClean | python/ePixViewer/_envDataReceiver.py:76-80 | a sanitised name holds none of ' ', '(', ')', '[', ']', '.', '-', '%' |
| EnvReceivers.SanitizeIdempotent | python/ePixViewer/_envDataReceiver.py:76-80 | sanitising twice is sanitising once |
| EnvReceivers.Words | python/ePixViewer/_envDataReceiver.py:117-124 | the uint64 or uint32 view fails exactly on a partial word, and otherwise has one word per width bytes |
| EnvReceivers.TickField | python/ePixViewer/_envDataReceiver.py:120-126 | the tick increment is word 0 AND 0x0fffffff, its low 28 bits |
| EnvReceivers.XAxisAppend | python/ePixViewer/_envDataReceiver.py:137-144 | appending the next x value keeps an axis well formed (first x 0, never above the tick count) |
| EnvReceivers.XAxisGrow | python/ePixViewer/_envDataReceiver.py:119-128 | an axis stays well formed when the tick count grows |
| EnvReceivers.Served | python/ePixViewer/_envDataReceiver.py:131-132 | the channel loop reaches the first channel whose word id + 1 is missing, and every channel before it has its word |
| EnvReceivers.Sample | python/ePixViewer/_envDataReceiver.py:132 | one converted reading per served channel |
| EnvReceivers.ServedAt | python/ePixViewer/_envDataReceiver.py:131-132 | the channel whose word is missing is where the loop stops |
| EnvReceivers.ShapedGrow | python/ePixViewer/_envDataReceiver.py:119-128 | well-formed histories stay so when the tick count grows |
| EnvReceivers.ShapedAppend | python/ePixViewer/_envDataReceiver.py:131-147 | well-formed histories stay so when each served channel appends one reading and one x value |
| EnvReceivers.ChannelLoop | python/ePixViewer/_envDataReceiver.py:131-149 | the channel loop appends each served channel's reading and next x value and sets its value, stopping at the first missing word |
| EnvReceivers.EnvReceiver.Width | python/ePixViewer/_envDataReceiver.py:117-124 | words are 8 bytes when payloadElementSize is 8 and 4 otherwise |
| EnvReceivers.EnvReceiver.NextTick | python/ePixViewer/_envDataReceiver.py:119-128 | the tick count never decreases, and grows by at least 1 without a clock |
| EnvReceivers.EnvReceiver.constructor | python/ePixViewer/_envDataReceiver.py:62-95 | empty histories, values 0, sanitised names, tick count 0 |
| EnvReceivers.EnvReceiver.Receive | python/ePixViewer/_envDataReceiver.py:116-154 | the tick count advances by the tick field (by 1 without a clock), an empty clocked frame raises with nothing changed, and the served channels append |
| EnvReceivers.EnvReceiver.Process | python/ePixViewer/_envDataReceiver.py:116-154 | a partial word fails the view with nothing changed; otherwise the words are received |
| EnvReceivers.EnvReceiver.Clear | python/ePixViewer/_envDataReceiver.py:101-107 | the tick count is reset (only when there is a channel), every history emptied and every value zeroed |
| Deques.Keep | software/_dataReceiver.py:38-47 | a deque keeps min(len, maxlen) entries |
| Deques.PushFits | software/_dataReceiver.py:38-47 | an append keeps a deque within its capacity and grows it by at most one |
| Deques.PushNewest | software/_dataReceiver.py:299-300 | the appended entry is the newest one |
| Deques.KeepAppend | software/_dataReceiver.py:38-47 | keeping after each append is keeping once after all of them |
| Deques.PushAllKeeps | software/_dataReceiver.py:212-214 | appends to a deque leave the newest maxlen entries of everything it held; to a list, everything |
| Deques.PushAllFlushes | software/_dataReceiver.py:210-214 | maxlen appends to a deque of that capacity leave only the appended entries |
| Deques.ResizedKeepsNewest | software/_dataReceiver.py:219-221 | a rebuilt deque keeps the newest entries, as many as the new capacity allows, in order |
| Histograms.Trunc | software/_dataReceiver.py:326-327 | `np.int32` of a float truncates toward zero |
| Histograms.MinOr0 | software/_dataReceiver.py:326 | `np.min(a, initial=0)` is at most 0 and every value, and is 0 or one of the values |
| Histograms.MaxOr0 | software/_dataReceiver.py:327 | `np.max(a, initial=0)` is at least 0 and every value, and is 0 or one of the values |
| Histograms.Least | software/epix_viewer/dataReceivers.py:319 | `a.min()` of a non-empty array is a value and at most every value |
| Histograms.Greatest | software/epix_viewer/dataReceivers.py:320 | `a.max()` of a non-empty array is a value and at least every value |
| Histograms.Edges | software/_dataReceiver.py:328 | `np.arange(low - 10, high + 10, 1)`: the integers from low - 10 below high + 10 |
| Histograms.Counts | software/_dataReceiver.py:329 | one count per bin, one fewer than the edges |
| Histograms.LegacyHistogramOf | software/epix_viewer/dataReceivers.py:315-325 | the older copy raises exactly on an empty queue |
| Histograms.TruncMonotone | software/_dataReceiver.py:326-327 | truncation is monotone |
| Histograms.CountSplit | software/_dataReceiver.py:329 | counts over adjacent half-open ranges add up |
| Histograms.SumUnitBins | software/_dataReceiver.py:329 | the unit bins from lo together count the values in [lo, lo + n) |
| Histograms.CountAll | software/_dataReceiver.py:329 | values that all lie in one bin range are all counted there |
| Histograms.Conserves | software/_dataReceiver.py:328-330 | edges that enclose every value count every value exactly once |
| Histograms.Encloses | software/_dataReceiver.py:326-328 | the edges around [min(0, v), max(0, v)] enclose v |
| Histograms.HistogramCountsAll | software/_dataReceiver.py:322-332 | bins run from min(0, min) - 10 to max(0, max) + 8, one per count (at least 19), and the counts add up to the queue length |
| Histograms.LegacyHistogramCountsAll | software/epix_viewer/dataReceivers.py:315-325 | for a non-empty queue, the same bins around min - 10 .. max + 8 and the same conservation |
| Analysis.Subtract | software/_dataReceiver.py:265-267 | `np.intc(img) - AvgDark` keeps the image's shape and fails exactly when the dark neither is 1 x 1 nor has the image's shape |
| Analysis.DarkMean | software/_dataReceiver.py:256 | the pixel-wise average keeps the frames' shape, and fails exactly on frames of different shapes |
| Analysis.MeanOfCopies | software/_dataReceiver.py:256 | the average of n > 0 copies of a frame is that frame |
| Analysis.DarkRunStores | software/_dataReceiver.py:252-254 | while fewer frames than requested are stored, each frame is appended and counted |
| Analysis.DarkRequestCompletes | software/_dataReceiver.py:246-259 | a request for n darks made while a dark is ready stores the next n frames, and the frame after them publishes their average, sets DarkReady and ends the request |
| Analysis.DarkOverrun | software/_dataReceiver.py:252-254 | a requested count below the stored count is never reached: every frame is stored and collection never ends |
| Analysis.CrossFitsMarked | software/_dataReceiver.py:281-291 | the crosshair goes through exactly when every marked cell exists in the view |
| Analysis.MarkedInside | software/_dataReceiver.py:281-291 | every marked cell lies inside the admitted area and within the arms' span around the cursor |
| Analysis.DrawRowBar | software/_dataReceiver.py:282-286 | the first loop writes the given mark (the crosshair value as the view's cells hold it) at exactly the row bar's cells and nowhere else, or raises an index error exactly when one of them is missing |
| Analysis.DrawColumnBar | software/_dataReceiver.py:287-291 | the second loop writes the given mark at exactly the column bar's cells and nowhere else, or raises an index error exactly when one of them is missing |
| Analysis.Crosshair | software/_dataReceiver.py:281-291 | both loops put the mark at every marked cell and nowhere else, or raise when a marked cell is missing; the display step passes `Mark(ViewCell(c, g))`, the value the drawn view's dtype keeps |
| Analysis.PushAllLength | software/_dataReceiver.py:212-214 | appends keep the capacity and fill up to it and no further |
| Analysis.TimePlotRestarts | software/_dataReceiver.py:209-215 | restarting a full time plot leaves it all zeros at indices -m .. -1 |
| Analysis.AppendBlank | software/_dataReceiver.py:212-214 | the restart loop appends m zeros with the indices -m .. -1 |
| Analysis.PrimedTimePlot | software/_dataReceiver.py:203-207 | a new receiver's time plot is 1000 zeros at indices -1000 .. -1, filling both deques |
| Analysis.Pixel | software/_dataReceiver.py:298 | `imgRaw[x][y]` is the pixel, or an index error exactly when it is missing |
| Analysis.Row | software/_dataReceiver.py:309 | `temp[x]` is the row, or an index error exactly when it is missing |
| Analysis.Column | software/_dataReceiver.py:313 | `temp[:, y]` is the column; the empty colormap raises a type error and a short row an index error |
| Analysis.Profile | software/_dataReceiver.py:308-315 | a plot that is off publishes `np.zeros(1)`; one that is on publishes the slice |
| Analysis.ContrastOrdered | software/_dataReceiver.py:333-342 | with a non-negative deviation the contrast range is ordered and encloses the truncated mean |
| Analysis.ResetTimePlot | software/_dataReceiver.py:209-217 | `resetTimePlot` with its loop computes `Restarted` |
| Analysis.Refreshed | software/_dataReceiver.py:227-229 | a refresh over a noise queue of frames of different shapes raises a reshape error (numpy's ValueError) and installs no colormap; otherwise it goes through |
| Analysis.Prelude | software/_dataReceiver.py:227-243 | the prelude raises exactly when the refresh meets a noise queue of frames of different shapes |
| Analysis.RunPrelude | software/_dataReceiver.py:227-243 | the colormap refresh (raising on a noise queue of mixed shapes), a requested restart and a capacity change, computed by their loops |
| Analysis.Correct | software/_dataReceiver.py:265-267 | without ApplyDark the frame is unchanged; a corrected frame keeps its shape |
| Analysis.PlotFor | software/_dataReceiver.py:322-332 | the current copy always publishes the histogram; the older one raises exactly on an empty queue |
| Analysis.Display | software/_dataReceiver.py:268-292 | the display step with its loops computes `Displayed` |
| Analysis.RunFrame | software/_dataReceiver.py:245-346 | one frame after the prelude, computed step by step, raising where `Frame` raises, including on an image queue of mixed shapes at :322 |
| Analysis.Present | software/_dataReceiver.py:268-346 | the display, tracking and histogram steps, computed with their loops; an image queue of mixed shapes raises before the histogram is published |
| Analysis.RestartedConsistent | software/_dataReceiver.py:209-217 | a restart keeps both time-plot deques within capacity with one index per sample |
| Analysis.RecappedKeepsNewest | software/_dataReceiver.py:241-243 | a new capacity rebuilds both deques keeping their newest entries and records it |
| Analysis.PreludeConsistent | software/_dataReceiver.py:227-243 | the prelude raises exactly on a refreshed noise queue of mixed shapes; otherwise it keeps the state consistent, ends any restart request and records the capacity |
| Analysis.RestartFlushes | software/_dataReceiver.py:237-239 | a restart under an unchanged capacity, when the refresh does not raise, leaves exactly m zeros at indices -m .. -1 and next index 0 |
| Analysis.ToggledClears | software/_dataReceiver.py:260-264 | a changed ApplyDark is recorded and clears the three analysis buffers to plain lists; an unchanged one changes nothing |
| Analysis.CrossedMarks | software/_dataReceiver.py:281-291 | the crosshair keeps the view's shape and writes the mark into the view copy at exactly the marked cells |
| Analysis.MarkStored | software/_dataReceiver.py:266-291 | the crosshair value stays -2^63 in a float64 view (the noise colormap, a dark-subtracted frame) and an int64 one, becomes 2^63 in a uint64 one, and becomes 0 in any narrower integer view such as a uint16 or int16 frame |
| Analysis.DisplayedFollowsCursor | software/_dataReceiver.py:268-292 | ShowDark shows the dark; otherwise the cursor becomes (Y, X), a moved cursor clears the histogram queue, and Data is the crosshaired view |
| Analysis.DisplayedKeeps | software/_dataReceiver.py:268-292 | the display step changes only the histogram queue, the cursor and Data |
| Analysis.SampledRecords | software/_dataReceiver.py:298-303 | sampling counts the sample, publishes the truncated pixel and both time-plot arrays |
| Analysis.SampledNewest | software/_dataReceiver.py:299-301 | the truncated pixel is the newest sample, at the index before the next one |
| Analysis.ProfiledQueues | software/_dataReceiver.py:305-317 | the profiles change only the profiles and queues; the pixel and the frame become the newest queue entries |
| Analysis.ProfiledSlices | software/_dataReceiver.py:305-315 | a profile that is on is row x or column y of `temp`; a missing row raises before anything changes |
| Analysis.TrackedConsistent | software/_dataReceiver.py:294-317 | tracking keeps the state consistent whether it goes through or raises |
| Analysis.TrackedGuard | software/_dataReceiver.py:296-298 | outside the guard tracking changes nothing; an admitted cursor whose pixel is missing raises an index error before any change; otherwise the pixel is sampled and the profiles taken |
| Analysis.TrackedKeepsNoise | software/_dataReceiver.py:296-317 | tracking never touches the noise queue |
| Analysis.PresentedQueuesFrame | software/_dataReceiver.py:294 | once the display step goes through, the frame is appended to the noise queue and stays its newest entry, whatever tracking and the histogram do after |
| Analysis.PresentedOutsideGuard | software/_dataReceiver.py:294-296 | with the cursor outside the guard, the histogram queue, the image queue and the time plot stay as the display step left them |
| Analysis.SampledProfiled | software/_dataReceiver.py:298-317 | a sample followed by profiles that go through records the sample |
| Analysis.TrackedPixel | software/_dataReceiver.py:296-317 | when the guard admits the cursor and tracking goes through, the cursor pixel exists and is recorded |
| Analysis.SwappedViewOverruns | software/deviceFiles/ePixHrMv2.py:15-17 | as written, a view declared (columns, rows) admits cursor row x = rows on a frame with fewer rows than columns, and tracking then raises an index error |
| Analysis.CursorInFrame | software/_dataReceiver.py:296-298 | with a view of the frame's own shape, every admitted cursor pixel exists |
| Analysis.OwnViewFits | software/_dataReceiver.py:296-317 | corrected: with a view of the frame's own shape, every admitted cursor is tracked without a fault and its sample recorded |
| Analysis.AnalysedRaises | software/_dataReceiver.py:321-346 | the histogram step raises in exactly three cases: an image queue of frames of different shapes (:322, and software/epix_viewer/dataReceivers.py:316 in the older copy, before publishing), then the older copy's empty queue (dataReceivers.py:319, before publishing), and the contrast of no queued frame |
| Analysis.AnalysedKeeps | software/_dataReceiver.py:321-346 | the histogram step changes only the histogram, its bins and the display range |
| Analysis.AnalysedHistogram | software/_dataReceiver.py:322-332 | an image queue of mixed shapes, or the older copy's empty queue, leaves histogram and bins unpublished; otherwise the published histogram is that of the queued pixel values, and in the current copy it counts every one |
| Analysis.AnalysedContrast | software/_dataReceiver.py:333-345 | with AutoCon the range is 0..50 on the noise colormap and otherwise ordered around the mean; without it the range is unchanged |
| Analysis.FrameConsistent | software/_dataReceiver.py:245-346 | a frame keeps the state consistent whether it goes through or raises |
| Analysis.PresentedConsistent | software/_dataReceiver.py:268-346 | showing, tracking and analysing keep the state consistent |
| Analysis.RaggedRefreshChangesNothing | software/_dataReceiver.py:227-229 | a refresh over a noise queue of frames of different shapes raises a reshape error and `process` changes nothing |
| Analysis.StepConsistent | software/_dataReceiver.py:226-346 | `process` keeps every buffer within capacity, the time-plot deques paired, and one count per stored dark |
| Analysis.AnalysisReceiver.constructor | software/_dataReceiver.py:34-58 | a new receiver's state is `Initial`: empty deques, the primed time plot, no dark |
| Analysis.AnalysisReceiver.Process | software/_dataReceiver.py:226-346 | `process` changes the receiver's fields exactly as `Step` states and raises where `Step` raises: a refreshed noise queue of mixed shapes (:229, nothing changed), a missing dark or crosshair cell, a missing cursor pixel or row, an image queue of mixed shapes (:322), the older copy's empty queue, and the contrast of no frame |

## Left out

- Transport and pyrogue plumbing are not modelled. The frame arrives as a byte
  or word sequence, and `getNumpy`, `getPayload`, `read` and `updateGroup`
  are left out. Each `LocalVariable` is a plain field, and `.set(..., write =
  True)` is a field store.
- `print` calls, the `OpenGUI` subprocess commands and the GUI are left out.
- `descramble(frame)` is applied to a frame value (bytes or words, or
  sub-frames for Tixel, Cpix2, ePixM32 and ADC32x32). The frame object's own
  methods are not modelled.
- The 1-second `time.time()` throttle on the noise colormap is a boolean
  `refresh` argument.
- `np.std` over the noise queue and `mean`/`std` of the image queue are
  left uninterpreted. They are the `deviation` and `stats` parameters of
  `Analysis.Setup`. The failure of `np.array` on a queue of frames of
  different shapes is modelled (`Analysis.Stacks`); those parameters are
  applied only to queues that form one array.
- Analysis.Stacks compares each queued frame's shape with the first's. A
  frame whose rows differ in length is not a raise in the model, because a
  descrambler returns a numpy array, whose rows always have one length.
- Floating point is not modelled. Pixel values are exact reals, and numpy's
  NaN is the `placeholder` of `Analysis.Setup`. That placeholder stands for
  `np.empty([1,1])` and for the mean of no frames.
- numpy broadcasting is limited to a 1 x 1 dark or one of the image's
  shape; any other shape is a broadcast error.
- `is not` on integers (the capacity, the dark count, the ApplyDark flag
  and the cursor) is modelled as `!=`. CPython's `is` agrees with `!=` only
  for small cached ints, so for large values the source may treat equal
  numbers as different.
- The clears rebind the histogram, image and noise queues to plain lists
  (`List()`), which then grow without bound as the source's do.
- Analysis.Process: the frame's content after `descramble` is an argument;
  the per-sensor descrambler is not called from it.
- DataReceiverEpix100a in dataReceivers.py calls a byte-array helper and a
  `sensorHeight` that its class does not define, so that copy is not
  modelled; the ePix100a row order is modelled from the asics copy.
- The SparkPix-RT `sp_map` is built and never used, so it is not modelled.
- The pseudo-scope receivers, software/_envDataReceiver.py (only prints) and
  the launchers are not part of this model.
- EnvReceivers.ChannelLoop and EnvReceivers.NextX store the x value as the
  tick count. With a clock, the source stores `round(tickCount·clockT·16, 2)`.
- EnvReceivers.EnvReceiver.Receive stores the x value as the tick count.
  With a clock, the source stores `round(tickCount·clockT·16, 2)`. That
  float scaling and the `round(newData, 5)` of the published value are not
  modelled.
- EnvReceivers.EnvReceiver.Receive takes `conv(rawToData(w))` as one
  function parameter `convert`, because both are callables supplied by the
  configuration. The JSON `channelList` is not modelled.
- EnvReceivers.EnvReceiver.Receive sets `Ellapsed` to the tick count when
  there is a clock, where the source stores `round(tickCount·clockT·16, 2)`.
  Without a clock it counts frames, as the source does.
- EnvMonitoring.Raw wraps a word of 2^31 or more into the int32 cell,
  which is what numpy before 2.0 does. NumPy 2 raises OverflowError
  instead.
- Analysis.Crosshair stores the crosshair value the way numpy before 2.0
  does. A narrow integer view (a uint16 or int16 frame with neither
  ApplyDark nor the noise colormap) then gets 0, and `Bits.StoredMin64`
  gives that value. NumPy 2 raises OverflowError at the first marked cell
  instead. That ends `process` before the noise queue and the time plot
  are updated, and the model does not capture it.
- Analysis.DrawRowBar, Analysis.DrawColumnBar and Analysis.CrossedMarks
  write the value the caller passes. The numpy 2 raise of Analysis.Crosshair
  applies to them as well.
- Analysis.AnalysedContrast states the contrast range only for a
  non-negative deviation, because `std` is a parameter of the model.
- Analysis.DarkMean: for uniform frames the average is the exact rational
  mean, not numpy's float mean.
- HrMv2.HrMv2Receiver.constructor and HrMv2.HrMv2LegacyReceiver.constructor
  promise `Valid()`, which ties the tables to their specification functions.
  The constructor's `fresh` arrays are not counted as a separate property.

## Findings

| source | as written | input that shows it | evidently intended | confidence | as-written member | corrected member |
|---|---|---|---|---|---|---|
| python/ePixViewer/asics/ePixHr10k2M.py:35 | the bank loop `range(0,23)` concatenates banks 0..22 only | any 110640-word payload: the image is 144 x 736, while the frame geometry (144 rows of 4·192 columns, lines 16-18) and the error path (line 49) are 144 x 768 | all 24 banks, giving 144 x 768 | high (not executed) | HrBanks.Hr10k2MWidthMismatch | HrBanks.Hr10k2MImage |
| software/deviceFiles/ePixHrMv2.py:15 | the receiver is built with length 384 and width 192, while its frames are 192 rows by 384 columns; the cursor guard at software/_dataReceiver.py:296 then admits rows 192..383 | cursor Y = 192, X = 0 on any frame: the guard passes and `imgRaw[192][0]` raises IndexError (the same swap: software/epix_viewer/dataReceivers.py:503; python/ePixViewer/asics/ePixUhr100kHz.py:14 at Y = 168 with 14 clusters; python/ePixViewer/asics/ePixHr10k2M.py:19, length 768 for 144-row frames, at Y = 144; python/ePixViewer/asics/ePixHrDuo10kT.py:14, length 384 for 144 x 384 frames, at Y = 144) | length = rows (192) and width = columns (384), so the guard admits exactly the frame's pixels | high (not executed) | Analysis.SwappedViewOverruns | Analysis.OwnViewFits |
