# Verified models of the Exynos hardware libraries

This project models the parts of the repository whose correctness is hardest to see from the code, and proves what
they are for. `dafny verify dfyconfig.toml` checks everything.

**Plane converters** (`libswconverter`). A decoder delivers planes in a tiled order; applications want rows. There are
two tiled orders. The 64x32-block order visits blocks along a Z pattern over pairs of block rows, with a special case
for a last row without a partner (`Nv12tLayout`). The 16-column order stores 16x16 or 16x8 tiles row by row
(`Tile16Layout`). For both, the slow address function is proved to be a bijection between the padded plane and the
buffer, and every fast converter, with its strips, running offsets and ragged edges, is proved to move exactly the bytes
that the address function names (`Nv12tUntile`, `Nv12tUntileUV`, `Nv12tTile`, `Tile16Untile`, `Tile16Words`). Tiling and
untiling is the identity. Cropping is exact under a condition that is proved necessary and sufficient.

**Colour conversion** (`libswconverter`, `libcsc`). RGB pictures become YUV planes in wrapping unsigned arithmetic that
is proved to give exact floors, each within one step of ITU-R BT.601 (`RgbToYuv`). Every supported conversion between
4:2:0 formats keeps one abstract image, so any two routes give the same bytes; the one step that does not keep it is
found and delimited (`CscPaths`). Row padding put in for an encoder and taken out again leaves a picture as it was
(`StridedRows`, `MfcCopy`).

**Thermal daemon** (`exynos-thermal`). A ladder of levels with hysteresis (`ThermalHysteresis`, `ThermalMonitor`), a
controller that steps by degrees (`ThermalStep`), devices that run at the strongest request (`ThermalDevice`), all
threads together in any interleaving (`ThermalArbitration`), and the three-phase barrier that switches every sensor
thread to a new scenario (`ScenarioBarrier`, `ScenarioSwitch`, `ScenarioReturn`, `ScenarioThreads`). Each method that takes a lock, or that stands between
two waits, is one atomic step; there are no spurious wakeups. Testing a flag and going to sleep are two steps, so a
wakeup can be lost.

**SBWC buffer registry** (`libsbwchelper`). Two maps and a count table with stale entries refine one map from a
compressed buffer to its YUV buffer and use count (`SbwcRegistry`).

**Display colour parcel** (`libdisplaycolor`). The table-driven CRC is the bit-serial one for every polynomial
(`Crc16`); a parcel is written, sized and walked (`DqeParcel`, `DqeReader`, `DqeLut`).

**CP boot daemon** (`cpboot_v3`). A binary cut into frames is put together again (`SipcFrames`), and the ring of dump
directories keeps the most recent dumps over every run (`DumpRing`).

`Bytes` holds bytes, bitwise or, interleaving and the copy loops; `Progress` says how far a pass over a plane has come, and `Common` is shared by several modules.

Reading notes. Shifts and masks on unsigned values are written with division and remainder, and `|` as `BitOr`, except
in `Crc16`, which uses 16-bit vectors. Loops that the source unrolls are loops. Methods whose names a C function does
not have are pieces of that function's body. Buffers are arrays; a function of the old contents says what a converter
leaves, and the lemmas are about that function.

Places where the code does something else than its callers or its documentation suggest. Each has a lemma with an input
that shows it, and the exact condition under which the code does what is expected:

- `tile_4x2_read` is right exactly below column and row 16384 (`Nv12tLayout.Tile4x2ReadIsAddr`).
- The cropping converters cut out their window exactly when it has 256 columns or more, or lies below 16384 and either has
  64 columns and at most 256 from the start of its first block, or fewer and an even left edge or a single block
  (`Nv12tUntile.CropIsExact`, `Nv12tUntile.CropExamples`). A narrow window of odd width also writes one byte behind
  itself (`Nv12tUntile.Overhang`). To be taken apart into two chroma planes, a window of 64 columns and more must start
  at an even column too (`Nv12tUntileUV.SplitIsExact`, `Nv12tUntileUV.SplitExamples`).
- Padding a planar picture and taking the padding out loses colour exactly for widths one more than a multiple of 32,
  from 33 columns and four rows on (`MfcCopy.RoundTripIsExact`).
- From NV21 to the private NV12 format the colour planes change places (`CscPaths.SwapNeedsEqualPlanes`).
- What is written for a colour parcel can be longer than the size announced for it, also by a call that fails: when the
  transform, once for each gamma matrix it replaces, takes more than these, the space set aside and the items left out
  (`DqeParcel.FitsExactly`, `DqeParcel.TwoGammasOutgrow`, `DqeParcel.FailedCallOutgrows`).
- A dump step that ends on a wrong frame number is counted instead of refused (`SipcFrames.AcceptedIsStored`).
- A scenario switch may never return. From a state of a switch some run ends it exactly when none of three things has
  happened (`ScenarioReturn.SwitchReturns`): the scenario thread sleeps, or is about to, though nobody is missing; a sensor
  thread sleeps, or is about to, though it has been released; or, in the first phase, a sensor thread waits for an active
  sensor and no thread is left that will traverse its sensors before it stops. Each of them is for good
  (`ScenarioReturn.DoomedIsForGood`) and happens in a run (`ScenarioReturn.MainCanSleepOn`,
  `ScenarioBarrier.WakeupsCanBeLost`, `ScenarioBarrier.IdleThreadsHappen`).
- A device without a level table never leaves status 0, whatever is asked of it (`ThermalArbitration.QuietDeviceIsSettled`,
  `ThermalArbitration.UntabledStaysAtZero`).
- The removal loop of the dump ring ends exactly for an index in the ring, or far below it (`DumpRing.LoopEnds`,
  `DumpRing.LoopExample`).
- A dump step above 0xFF runs into the stage of its command word (`SipcFrames.CommandsDiffer`, `SipcFrames.StepsCollide`).

## Model

| member | source | states |
|---|---|---|
| `Bytes.DeinterleaveMemcpy` | libswconverter/swconvertor.c:1333-1346 | even bytes go to one buffer, odd bytes to the other, and nothing else changes |
| `Bytes.InterleaveMemcpy` | libswconverter/swconvertor.c:1361-1380 | the two sources alternate in the destination, and nothing else changes |
| `Bytes.InterleaveRoundTrip` | libswconverter/swconvertor.c:1333-1380 | taking an interleaving apart gives both sources back |
| `Bytes.DeinterleaveRoundTrip` | libswconverter/swconvertor.c:1333-1380 | interleaving the even and odd bytes gives the whole back |
| `Nv12tLayout.Tile4x2ReadIsAddr` | libswconverter/swconvertor.c:270-309 | the bit-field address plus the column in its group is the block address exactly for columns and rows below 16384, and less elsewhere |
| `Nv12tLayout.LastEvenRow` | libswconverter/swconvertor.c:822-849 | the row test in the code singles out the last block row of an odd number of rows |
| `Nv12tLayout.BlockOffset` | libswconverter/swconvertor.c:822-849 | the three offset formulas (odd, even, last even) give the block's place in the Z order |
| `Nv12tLayout.AddrIs` | libswconverter/swconvertor.c:822-849 | the address of a pixel, written out with the odd, the even and the last even formula |
| `Nv12tLayout.BlockInPair` | include/swconverter.h:25-31 | a pair of block rows occupies its own run of consecutive blocks, a lone last row half such a run |
| `Nv12tLayout.BlockThenInverse` | libswconverter/swconvertor.c:822-849 | every block has an index inside the plane from which column and row are found again, so the index is injective |
| `Nv12tLayout.InverseThenBlock` | libswconverter/swconvertor.c:822-849 | every index below the number of blocks belongs to a block |
| `Nv12tLayout.AddrThenInverse` | libswconverter/swconvertor.c:270-309 | every pixel of the padded plane has an address of its own inside the buffer |
| `Nv12tLayout.InverseThenAddr` | libswconverter/swconvertor.c:270-309 | every byte of the buffer is the address of one pixel of the padded plane |
| `Nv12tLayout.StripIsContiguous` | libswconverter/swconvertor.c:270-309 | up to 64 columns of a block row are consecutive bytes, which the memcpys rely on |
| `Nv12tLayout.PlaneFits` | libswconverter/swconvertor.c:270-309 | the plane lies in the padded plane, and up to 16384 square its offsets need less than 32 bits |
| `Nv12tUntile.RowStrip` | libswconverter/swconvertor.c:343-509 | one memcpy inside a block extends the copied part of a row by the right pixels |
| `Nv12tUntile.StripBlocks` | libswconverter/swconvertor.c:365-447 | the running offsets of the four blocks of a strip and of the next strip are the address function's |
| `Nv12tUntile.FirstStrip` | libswconverter/swconvertor.c:402-433 | the first strip of a wide row, from any left edge to the next multiple of 256 |
| `Nv12tUntile.MiddleStrips` | libswconverter/swconvertor.c:435-447 | whole strips with running offsets continue the row |
| `Nv12tUntile.LastStrip` | libswconverter/swconvertor.c:449-465 | the ragged end of a wide row completes it |
| `Nv12tUntile.UntileRowWide` | libswconverter/swconvertor.c:361-466 | the branch for 256 columns and more puts one row behind the rows before it and changes nothing else |
| `Nv12tUntile.UntileRowMedium` | libswconverter/swconvertor.c:467-496 | the branch for 64 to 255 columns puts one row of bytes from where tile_4x2_read points, for every crop |
| `Nv12tUntile.UntileRowNarrow` | libswconverter/swconvertor.c:497-508 | the branch below 64 columns puts one row in pairs from any left edge, with the byte behind an odd row |
| `Nv12tUntile.TiledToLinearCrop` | libswconverter/swconvertor.c:343-509 | all three branches, every crop of every plane: the output rows in order, the byte behind a narrow odd window, and no other change |
| `Nv12tUntile.WindowAt` | libswconverter/swconvertor.c:343-509 | byte (x, y) of a window is the source byte at the address of that pixel |
| `Nv12tUntile.OutputIsWindow` | libswconverter/swconvertor.c:343-509 | under the exactness condition the output is the cropped window of the plane |
| `Nv12tUntile.OutAddrReadable` | libswconverter/swconvertor.c:467-508 | every byte copied lies in the plane, in the strip behind it, or one byte behind it, as the crop needs |
| `Nv12tUntile.CleanAddresses` | libswconverter/swconvertor.c:343-509 | under the condition every column is copied from its own address |
| `Nv12tUntile.UncleanAddress` | libswconverter/swconvertor.c:467-508 | without it some column of the window is copied from another address |
| `Nv12tUntile.WrongPixel` | libswconverter/swconvertor.c:467-508 | and there is a plane of which that column shows the wrong byte |
| `Nv12tUntile.CropIsExact` | libswconverter/swconvertor.c:343-509 | the converter cuts out the window of every plane if and only if a condition on the crop holds, which names the widths, the parity of the left edge and the 16384 bound |
| `Nv12tUntile.Overhang` | libswconverter/swconvertor.c:497-508 | a byte behind the window is written exactly for a narrow window of odd width |
| `Nv12tUntile.CropExamples` | libswconverter/swconvertor.c:467-508 | three crops that are not cut out: across a block from an odd column, beyond column 16384, and past the last strip |
| `Nv12tUntile.TiledToLinear` | libswconverter/swconvertor.c:1399-1416 | with zero crop every width gives the whole plane in rows, odd widths below 64 with one byte behind it |
| `Nv12tUntileUV.TiledToLinearDeinterleaveCrop` | libswconverter/swconvertor.c:543-765 | all three branches, every crop of every plane: place by place, both chroma planes get pairs of what the plain converter puts out, later rows over earlier ones, and no other byte changes |
| `Nv12tUntileUV.EvenPlane` | libswconverter/swconvertor.c:543-765 | when no memcpy takes half a pair, the two planes are the even and the odd bytes of what the plain converter puts out |
| `Nv12tUntileUV.SplitIsExact` | libswconverter/swconvertor.c:543-765 | for windows of even width, they are the even and odd bytes of the window of every plane if and only if the plain converter's condition holds and the left edge is even or the window narrower than 64 columns |
| `Nv12tUntileUV.HalfPairLosesColumn` | libswconverter/swconvertor.c:612-747 | from an odd left edge, 64 columns and more lose the last column of the first block |
| `Nv12tUntileUV.SplitExamples` | libswconverter/swconvertor.c:543-765 | two crops from an odd left edge that the plain converter cuts out and this one does not take apart, and one it does |
| `Nv12tTile.TiledPixel` | libswconverter/swconvertor.c:798-966 | reading a tiled picture at a pixel's address gives that pixel |
| `Nv12tTile.CroppedPixel` | libswconverter/swconvertor.c:798-966 | pixel (x, y) of a cropped picture is the byte x + left of row y + top |
| `Nv12tTile.CroppedChroma` | libswconverter/swconvertor.c:1000-1234 | the same for the two samples of a chroma pair |
| `Nv12tTile.TiledFrame` | libswconverter/swconvertor.c:798-966 | a byte that is no pixel's address stays |
| `Nv12tTile.StripAddresses` | libswconverter/swconvertor.c:814-965 | inside the buffer, the bytes of a strip are exactly the addresses of its pixels |
| `Nv12tTile.PutPass` | libswconverter/swconvertor.c:814-965 | one pass tiles its rectangle of pixels and no other byte |
| `Nv12tTile.LinearToTiledCrop` | libswconverter/swconvertor.c:798-966 | the three passes leave the cropped picture tiled, and every byte that is not a pixel's address unchanged |
| `Nv12tTile.LinearToTiledInterleaveCrop` | libswconverter/swconvertor.c:1000-1234 | the same for two chroma planes interleaved on the way |
| `Nv12tTile.TileThenUntile` | libswconverter/swconvertor.c:798-966 | untiling a tiled picture gives its linear order, whatever the buffer held before |
| `Nv12tTile.PlaneRoundTrip` | libswconverter/swconvertor.c:798-966 | untiling what LinearToTiledCrop leaves gives the plane back; that function leaves it for even widths and heights |
| `Nv12tTile.TileAndUntile` | libswconverter/swconvertor.c:798-966 | both calls one after the other, on buffers: every byte of the plane comes back |
| `Nv12tTile.TileAndSplit` | libswconverter/swconvertor.c:543-765 | interleave-tiling and de-interleaving one after the other, on buffers: every byte of both chroma planes comes back |
| `Nv12tTile.ChromaRoundTrip` | libswconverter/swconvertor.c:1000-1234 | interleave-tiling and untiling gives the interleaving, and de-interleaving it gives both planes back |
| `Tile16Layout.Tile2DToLinearIsTileAddr` | libswconverter/swconvertor.c:1238-1269 | the shifts and masks address a row of a 16x16 or 16x8 tile |
| `Tile16Layout.AddrThenInverse` | libswconverter/swconvertor.c:1238-1269 | every pixel of the padded plane has an address of its own inside it |
| `Tile16Layout.InverseThenAddr` | libswconverter/swconvertor.c:1238-1269 | every byte of the padded plane is the address of one pixel |
| `Tile16Untile.TiledToLinear` | libswconverter/swconvertor.c:1417-1478 | the strip copies of the luma plane (even heights) and of the interleaved chroma plane refine the address function pixel by pixel, ragged edges included |
| `Tile16Untile.TiledToLinearDeinterleave` | libswconverter/swconvertor.c:1617-1677 | both chroma planes refine it sample by sample |
| `Tile16Untile.UntiledAt` | libswconverter/swconvertor.c:1417-1677 | the source byte of every sample, written out |
| `Tile16Untile.UntiledFrame` | libswconverter/swconvertor.c:1417-1677 | the bytes behind the output stay |
| `Tile16Untile.UntileThenDeinterleave` | libswconverter/swconvertor.c:1518-1677 | de-interleaving while untiling is untiling and then de-interleaving |
| `Tile16Words.WordBytes` | libswconverter/swconvertor.c:1271-1315 | shifting and masking a loaded word gives its bytes in memory order |
| `Tile16Words.TilesToY` | libswconverter/swconvertor.c:1271-1315 | the word-by-word reader leaves the same luma plane as the strip copies |
| `Tile16Words.TilesToCbCr` | libswconverter/swconvertor.c:1271-1315 | and the same two chroma planes |
| `RgbToYuv.Sample` | libswconverter/swconvertor.c:1966-1985 | luma stays within 16 to 235, colour differences within 16 to 240 |
| `RgbToYuv.SampleIsNearBt601` | libswconverter/swconvertor.c:1966-1985 | every sample is less than one step from the real value of Recommendation ITU-R BT.601; grey is neutral, black and white are 16 and 235 |
| `RgbToYuv.LogicalShift` | libswconverter/swconvertor.c:1977-1985 | a logical shift of a wrapped negative sum, cut to a byte, is the floor |
| `RgbToYuv.LumaOf` | libswconverter/swconvertor.c:1970-1974 | the wrapping luma arithmetic gives the exact sample |
| `RgbToYuv.CbOf` | libswconverter/swconvertor.c:1977-1984 | the wrapping U arithmetic, with its unsigned negative coefficient, gives the exact sample |
| `RgbToYuv.CrOf` | libswconverter/swconvertor.c:1980-1985 | the wrapping V arithmetic gives the exact sample |
| `RgbToYuv.LoadPixel` | libswconverter/swconvertor.c:1964-1968 | blue comes from the lowest byte of a BGRA pixel, red from that of an RGBA pixel |
| `RgbToYuv.PlaneAt` | libswconverter/swconvertor.c:1962-1988 | sample (x, y) of a plane comes from pixel (x, y), or (2x, 2y) for colour, for pictures of any size |
| `RgbToYuv.LumaBytes` | libswconverter/swconvertor.c:1962-1974 | every luma byte is the rounded 66/129/25 sum of the pixel's red, green and blue bytes, for both byte orders |
| `RgbToYuv.ColourBytes` | libswconverter/swconvertor.c:1975-1988 | every Cb and Cr byte likewise, from the upper left of each two by two pixels |
| `RgbToYuv.UvSamples` | libswconverter/swconvertor.c:2086-2214 | the interleaved plane has the Cb samples first in each pair |
| `RgbToYuv.FilledByte` | libswconverter/swconvertor.c:1935-2214 | every byte of a buffer after a conversion: the new one in front, the old one behind |
| `RgbToYuv.ToPlanar` | libswconverter/swconvertor.c:1935-2066 | both planar converters fill three planes and change nothing behind them |
| `RgbToYuv.ToSemiPlanar` | libswconverter/swconvertor.c:2086-2214 | both semi-planar converters fill luma and the interleaving of the planar converters' colour planes |
| `CscPaths.ConvSwSrcRgb` | libcsc/csc.c:235-346 | every supported target shows the picture's image; for YV12 the colour planes change places |
| `CscPaths.ConvSwSrcPlanar` | libcsc/csc.c:397-487 | planar sources are converted to exactly the supported targets, and the image is kept |
| `CscPaths.SupportedPairs` | libcsc/csc.c:397-760 | which formats are converted into which |
| `CscPaths.ImageBytes` | libcsc/csc.c:397-760 | where the samples of an image lie in every format |
| `CscPaths.SplitSemiPlanar` | libcsc/csc.c:519-569 | the cropped luma rows are packed and the pairs of the cropped chroma rows are taken apart, at the source's stride |
| `CscPaths.ConvSwSrcSemiPlanar` | libcsc/csc.c:490-662 | semi-planar sources are converted to exactly the supported targets; the image is kept except from NV21 to the private NV12 format, where U and V change places |
| `CscPaths.ImageFixesBytes` | libcsc/csc.c:235-662 | an image has one layout in every format |
| `CscPaths.RouteKeepsImage` | libcsc/csc.c:700-749 | any chain of supported conversions without that step keeps the image |
| `CscPaths.RoutesAgree` | libcsc/csc.c:235-487 | any two routes from one image to one format end with the same bytes, so RGB reaches a semi-planar buffer alike directly, through planar and through YV12 |
| `CscPaths.SwapNeedsEqualPlanes` | libcsc/csc.c:592-606 | the NV21 to private NV12 step keeps exactly the images with equal colour planes |
| `CscPaths.SwapExample` | libcsc/csc.c:592-606 | a picture of four pixels that it changes |
| `StridedRows.CopyRows` | libcsc/csc.c:64-90 | a row-by-row copy moves every row between its two strides and changes no byte between the rows |
| `StridedRows.GatherAt` | libcsc/csc.c:64-90 | byte k of row i stands at the i-th stride |
| `StridedRows.SameRows` | libcsc/csc.c:64-90 | two buffers with the same rows agree byte by byte at their strides |
| `StridedRows.GapBytes` | libcsc/csc.c:64-90 | the bytes between the rows and behind them are in no row |
| `MfcCopy.CopyMfcData` | libcsc/csc.c:52-232 | every branch shows the source's picture at the destination's strides and keeps every other byte; other formats are refused and nothing changes |
| `MfcCopy.DecoderBytes` | libcsc/csc.c:62-90 | byte by byte which source byte each byte of a planar picture comes from, towards a decoder |
| `MfcCopy.DecoderSemiBytes` | libcsc/csc.c:91-134 | the same for semi-planar and P010 pictures |
| `MfcCopy.EncoderBytes` | libcsc/csc.c:135-170 | and towards an encoder, with equal and with different widths |
| `MfcCopy.EncoderSemiBytes` | libcsc/csc.c:171-222 | the same for semi-planar and P010 pictures |
| `MfcCopy.DecoderKeeps` | libcsc/csc.c:62-90 | the bytes behind the packed rows stay |
| `MfcCopy.EncoderKeeps` | libcsc/csc.c:135-170 | the padding stays as it was |
| `MfcCopy.SemiKeeps` | libcsc/csc.c:91-222 | the same for semi-planar and P010 pictures in both directions |
| `MfcCopy.BlockKeeps` | libcsc/csc.c:141-144 | behind a plane copied as one block the bytes stay |
| `MfcCopy.RgbCopied` | libcsc/csc.c:223-228 | an RGB picture is copied byte by byte, and nothing else changes |
| `MfcCopy.StridesAgree` | libcsc/csc.c:74-86 | the colour strides of the two directions agree exactly for widths that are not one more than a multiple of 32 |
| `MfcCopy.PlanarRoundTrip` | libcsc/csc.c:60-161 | padding a packed planar picture to 16 bytes and taking the padding out gives Y, U and V back |
| `MfcCopy.PadAndRemove` | libcsc/csc.c:52-232 | the two calls one after the other, on buffers: every plane comes back |
| `MfcCopy.RoundTripIsExact` | libcsc/csc.c:60-161 | every picture comes back if and only if the width is not one more than a multiple of 32, or there is no colour, or no second colour row |
| `MfcCopy.LosesColour` | libcsc/csc.c:60-161 | for all other sizes, a picture that does not come back |
| `MfcCopy.SemiRoundTrip` | libcsc/csc.c:91-210 | the same for semi-planar pictures of eight and of sixteen bits |
| `ThermalDevice.LowestIsMax` | exynos-thermal/thermal-device.cpp:33-43 | the strongest request is the maximum of 0 and all requests |
| `ThermalDevice.LowestUnique` | exynos-thermal/thermal-device.cpp:33-43 | no other number is |
| `ThermalDevice.Device.GetLowestStatus` | exynos-thermal/thermal-device.cpp:33-43 | the loop over the requests finds it |
| `ThermalDevice.Device.DeviceControl` | exynos-thermal/thermal-device.cpp:44-49 | one request is replaced, all others stay |
| `ThermalDevice.Device.StatusApply` | exynos-thermal/thermal-device.cpp:50-81 | the device then runs at the strongest request, unless it has no level table |
| `ThermalHysteresis.CountLoop` | exynos-thermal/thermal-algo.cpp:71-91 | the counting loop stops at the first entry above the temperature |
| `ThermalMonitor.LowActiveCount` | exynos-thermal/thermal-algo.cpp:47-61 | with negated thresholds and readings, the leading thresholds that the sensor has fallen to are counted |
| `ThermalHysteresis.CountSplits` | exynos-thermal/thermal-algo.cpp:71-91 | on sorted entries it has counted exactly those at or below the temperature |
| `ThermalHysteresis.NextIsClamp` | exynos-thermal/thermal-algo.cpp:71-95 | the three branches together force the level between the thresholds reached and the clear values reached |
| `ThermalHysteresis.Idempotent` | exynos-thermal/thermal-algo.cpp:71-95 | a second decision at the same temperature changes nothing |
| `ThermalHysteresis.Monotone` | exynos-thermal/thermal-algo.cpp:71-95 | a higher temperature or a higher level before never gives a lower level |
| `ThermalHysteresis.ConstantInBand` | exynos-thermal/thermal-algo.cpp:71-95 | readings that stay in the band of the level leave it, however many |
| `ThermalHysteresis.RunBounds` | exynos-thermal/thermal-algo.cpp:71-95 | after any run the level lies between the counts of the last reading, and runs keep their order |
| `ThermalMonitor.Monitor.Decision` | exynos-thermal/thermal-algo.cpp:62-126 | the level, every request and status of every device, the active status and the thread's active count; a monitor that asked for its level still does |
| `ThermalMonitor.Monitor.RequestAfterIs` | exynos-thermal/thermal-algo.cpp:97-125 | a decision asks each device for the action of its last mention in the new level, and releases those of the old level alone |
| `ThermalMonitor.Monitor.AskedForLevel` | exynos-thermal/thermal-algo.cpp:97-125 | a monitor that keeps asking for its level holds on each device the action of its last mention there, or 0 |
| `ThermalMonitor.Monitor.TouchedIs` | exynos-thermal/thermal-algo.cpp:113-121 | exactly the devices of both levels are applied |
| `ThermalMonitor.Monitor.MoveTo` | exynos-thermal/thermal-algo.cpp:97-124 | releasing the old level, requesting the new one and applying both leaves the last action of the new level, else 0 on devices of the old one, and leaves all other devices alone |
| `ThermalMonitor.Monitor.Deactivate` | exynos-thermal/thermal-algo.cpp:127-139 | all requests of the level become 0, the devices apply, the thread has one active monitor less; at level 0 nothing happens |
| `ThermalStep.SS.Decision` | exynos-thermal/thermal-algo.cpp:144-203 | the level, the remembered temperature, the tick counter (one more at the same degree with the device at or below the floor, else 0), the request and the status of the device, with and without a level table |
| `ThermalStep.SS.MoveTo` | exynos-thermal/thermal-algo.cpp:182-198 | the device is asked for the capped level and applies it, the tick counter restarts |
| `ThermalStep.SS.Deactivate` | exynos-thermal/thermal-algo.cpp:209-215 | level and tick counter are 0 and the request is withdrawn |
| `ThermalStep.HistoryFree` | exynos-thermal/thermal-algo.cpp:144-203 | without ticks the level after any run of readings depends on the last reading alone |
| `ThermalStep.TicksRaiseTheLevel` | exynos-thermal/thermal-algo.cpp:169-198 | over every run of decisions at one degree with the device at or below the floor, the level rises by one each time the counter runs full, and never else |
| `ThermalStep.OneLevelPerTick` | exynos-thermal/thermal-algo.cpp:169-198 | from a level just reached, exactly the tick trigger's number of such decisions raise it by one, and fewer do not |
| `ThermalStep.OtherwiseByDegrees` | exynos-thermal/thermal-algo.cpp:163-181 | at another degree, or above the floor, the level moves by the difference in degrees and the count starts again |
| `ThermalStep.LevelOverRuns` | exynos-thermal/thermal-algo.cpp:144-203 | over every run the level is at least the one the last reading stands for, and above it by at most the times the counter can have run full |
| `ThermalStep.DegreesAreWhole` | exynos-thermal/thermal-algo.cpp:163-166 | degrees are cut towards zero |
| `ThermalStep.RequestIsMin` | exynos-thermal/thermal-algo.cpp:184-192 | the request is the least of the level counted from the start level, the table's last level and the performance floor |
| `ThermalStep.NoLevelBelowTrigger` | exynos-thermal/thermal-algo.cpp:163-180 | a reading below the trigger's degree leaves no level, however hot it was before |
| `ThermalStep.OneLevelPerDegree` | exynos-thermal/thermal-algo.cpp:163-180 | from the trigger on, every whole degree is one level |
| `ThermalArbitration.PlanLeadsTo` | exynos-thermal/thermal-algo.cpp:97-139 | a monitor's calls lead from the requests of one level to those of the other on every device |
| `ThermalArbitration.PlanIsClosed` | exynos-thermal/thermal-algo.cpp:97-139 | every deviceControl of a monitor is followed by a statusApply of the same device |
| `ThermalArbitration.PlanOn` | exynos-thermal/thermal-algo.cpp:97-139 | what a plan leaves on a device, whatever was asked of it before |
| `ThermalArbitration.DecisionMakesPlan` | exynos-thermal/thermal-algo.cpp:97-139 | the requests that the monitor object leaves are those at the end of its plan |
| `ThermalArbitration.StepKeepsInv` | exynos-thermal/thermal-device.cpp:44-81 | every step of every thread keeps the invariant |
| `ThermalArbitration.QuietDeviceIsSettled` | exynos-thermal/thermal-device.cpp:33-81 | in every interleaving, a device that no thread is busy with runs at the maximum of 0 and all requests, or at 0 if it has no level table |
| `ThermalArbitration.UntabledStaysAtZero` | exynos-thermal/thermal-device.cpp:33-81 | a run that asks status 3 of a device without a level table and applies it, after which its status is 0 |
| `ThermalArbitration.MonitorAtRestAsksForItsLevel` | exynos-thermal/thermal-algo.cpp:97-139 | in every interleaving, a monitor at rest asks for exactly the actions of its level |
| `ThermalArbitration.WantedIs` | exynos-thermal/thermal-algo.cpp:105-111 | what a level asks of a device is the action at its last mention |
| `ThermalArbitration.LadderRuns` | exynos-thermal/thermal-algo.cpp:97-125 | a run in which a monitor decides, asks and applies |
| `ScenarioBarrier.StepKeepsInv` | exynos-thermal/thermal-thread.cpp:155-294 | every step of the scenario thread and of any sensor thread keeps the invariant |
| `ScenarioBarrier.BarrierSafety` | exynos-thermal/thermal-thread.cpp:155-294 | in every run, no thread takes up the new scenario or runs with it before all have stopped, none clears its old one or runs without it before all have applied the new one, and the counter is the number of threads signalled and not yet reported |
| `ScenarioBarrier.BarrierByPlace` | exynos-thermal/thermal-thread.cpp:155-294 | the same by where the threads are: while one applies or clears, none is on its way to the stop, and those back at work have changed over; while one clears, every sensor has the new scenario |
| `ScenarioBarrier.RenamedOnlyWhileStopped` | exynos-thermal/thermal-thread.cpp:155-166 | a sensor's algorithms are renamed by handing out the scenario with isSetOld, and by no other step; its thread is stopped then |
| `ScenarioBarrier.SwitchCompletes` | exynos-thermal/thermal-thread.cpp:257-294 | when a switch returns, every thread is outside changingScen and every sensor has the target as old and as new scenario |
| `ScenarioSwitch.SwitchResult` | exynos-thermal/thermal-thread.cpp:155-294 | in every run, a switch that returns leaves every sensor in the scenario it was called with, with the prefix OLDSCEN_ if isSetOld, and every sensor's algorithms under their names at the call, with the prefix if isSetOld |
| `ScenarioSwitch.StepStaysUnderway` | exynos-thermal/thermal-thread.cpp:155-294 | between call and return, a thread's sensors have been renamed exactly when it has been given the scenario |
| `ScenarioBarrier.WhatBlocks` | exynos-thermal/thermal-thread.cpp:176-294 | whenever no step of a switch is possible, a wakeup has been lost or a signalled sensor thread has no active sensor |
| `ScenarioBarrier.LostWakeupIsForGood` | exynos-thermal/thermal-thread.cpp:176-183 | a sensor thread that sleeps although released never wakes, and the switch never returns, in any run |
| `ScenarioBarrier.IdleThreadBlocks` | exynos-thermal/thermal-thread.cpp:222-238 | once all other threads have halted, a thread without an active sensor stays idle and the switch never returns, in any run |
| `ScenarioBarrier.IdleThreadsHappen` | exynos-thermal/thermal-thread.cpp:222-238 | a run of two threads, one with only virtual sensors that are off, into that state, without a lost wakeup |
| `ScenarioBarrier.WakeupsCanBeLost` | exynos-thermal/thermal-thread.cpp:176-183 | a run in which the signal comes between the test and the wait, and no step of the switch is possible any more |
| `ScenarioReturn.SwitchReturns` | exynos-thermal/thermal-thread.cpp:155-294 | from any state of a switch, some run ends it if and only if the scenario thread does not sleep with nobody missing, no sensor thread sleeps after its release, and in the first phase an idle thread has another that can still switch its sensors on |
| `ScenarioReturn.StepKeepsDoomed` | exynos-thermal/thermal-thread.cpp:155-294 | no step of any thread undoes one of the three conditions or ends the switch |
| `ScenarioReturn.DoomedIsForGood` | exynos-thermal/thermal-thread.cpp:155-294 | under one of them no run ends the switch |
| `ScenarioReturn.CalmReturns` | exynos-thermal/thermal-thread.cpp:155-294 | when no wakeup is lost and nobody is idle in the first phase, a run of all three phases ends the switch |
| `ScenarioReturn.WakersReturn` | exynos-thermal/thermal-thread.cpp:37-50 | a thread that traverses its sensors can wake every idle thread, and then a run ends the switch |
| `ScenarioReturn.BlockedIsDoomed` | exynos-thermal/thermal-thread.cpp:176-238 | a thread asleep after its release, and a first phase in which all but an idle thread have halted, are such conditions |
| `ScenarioReturn.MainCanSleepOn` | exynos-thermal/thermal-thread.cpp:244-256 | a run in which the last report comes between the scenario thread's test and its wait, and nothing else is wrong |
| `ScenarioBarrier.AddPrefixKeepsAlgos` | exynos-thermal/thermal-sensor.cpp:41-50 | renaming keeps every scenario's algorithms under the prefixed name and adds nothing |
| `ScenarioThreads.Daemon.SignalStop` | exynos-thermal/thermal-thread.cpp:262-266 | counting and signalling one thread to stop is a step of the barrier that wakes nobody |
| `ScenarioThreads.Daemon.SignalScenario` | exynos-thermal/thermal-thread.cpp:155-166 | so is handing out the scenario; with isSetOld every sensor's algorithms get the prefix, and the scenario too |
| `ScenarioThreads.Daemon.SignalClear` | exynos-thermal/thermal-thread.cpp:167-175 | the release to clear the old scenario comes when every sensor of every thread has the new one |
| `ScenarioThreads.Daemon.TestAllSensorThreads` | exynos-thermal/thermal-thread.cpp:244-249 | the scenario thread sleeps or goes on as the counter says |
| `ScenarioThreads.Daemon.SendSignalToScenThreads` | exynos-thermal/thermal-thread.cpp:250-256 | a report takes one off the counter, which stays at or above zero, and wakes the scenario thread at zero |
| `ScenarioThreads.Daemon.TestNeedWait` | exynos-thermal/thermal-thread.cpp:176-183 | a sensor thread that goes on past a stop knows that all threads have stopped, or have applied the new scenario |
| `ScenarioThreads.Daemon.ApplyNewScenario` | exynos-thermal/thermal-thread.cpp:184-197 | every sensor of the thread gets the new scenario, after all threads have stopped |
| `ScenarioThreads.Daemon.ClearOldScenario` | exynos-thermal/thermal-thread.cpp:211-216 | every sensor of the thread leaves the old scenario, after all have applied the new one |
| `ScenarioThreads.Daemon.Activate` | exynos-thermal/thermal-thread.cpp:37-43 | the first active sensor wakes a thread that waits for one |
| `ScenarioThreads.Daemon.Deactivate` | exynos-thermal/thermal-thread.cpp:45-50 | the active count falls, not below zero, and the thread stays where it is |
| `ScenarioThreads.Daemon.BeginRound` | exynos-thermal/thermal-thread.cpp:222-229 | without an active sensor a thread is about to wait for one, whether or not it is told to stop |
| `SbwcRegistry.NewYuvKeepsInv` | libsbwchelper/SBWCHelper.cpp:175-249 | the two maps stay inverse, counts positive, stale counts 1, and acquires minus releases is the count |
| `SbwcRegistry.FreeYuvKeepsInv` | libsbwchelper/SBWCHelper.cpp:286-351 | the same for a free |
| `SbwcRegistry.NewYuvRefines` | libsbwchelper/SBWCHelper.cpp:175-249 | a request is one more use of the buffer's entry, or a first use of the buffer allocated |
| `SbwcRegistry.FreeYuvRefines` | libsbwchelper/SBWCHelper.cpp:286-351 | a free succeeds exactly for a buffer in use and gives back one use; else nothing changes |
| `SbwcRegistry.CountsAreUses` | libsbwchelper/SBWCHelper.cpp:175-505 | over every sequence of calls, the count of a buffer, its acquires minus releases, and its uses handed out minus taken back are the same |
| `SbwcRegistry.ReusedAddressStartsAtOne` | libsbwchelper/SBWCHelper.cpp:223-226 | an address that the allocator gives again starts at 1 in spite of its stale count |
| `SbwcRegistry.Registry.NewYuvAHB` | libsbwchelper/SBWCHelper.cpp:382-447 | both forms of the request, on the maps |
| `SbwcRegistry.Registry.FreeYuvAHB` | libsbwchelper/SBWCHelper.cpp:449-505 | both forms of the free; the last decode is forgotten with the last buffer |
| `SbwcRegistry.Registry.Decompress` | libsbwchelper/SBWCHelper.cpp:251-284 | true means the service's last call decoded this pair of handles; a repeated request leaves the service alone |
| `Crc16.StepsIsLinear` | libdisplaycolor/libdisplaycolor_default.cpp:94-103 | shifting is linear over exclusive or |
| `Crc16.TableStep` | libdisplaycolor/libdisplaycolor_default.cpp:109-118 | eight shifts of a register are the table entry of its low byte and its high byte |
| `Crc16.FeedIsSteps` | libdisplaycolor/libdisplaycolor_default.cpp:109-118 | adding a byte before eight shifts is feeding its bits one by one |
| `Crc16.GenCrc16Table` | libdisplaycolor/libdisplaycolor_default.cpp:89-108 | entry k holds what eight shifts make of k, for any polynomial |
| `Crc16.GetCrc16` | libdisplaycolor/libdisplaycolor_default.cpp:109-118 | over such a table, the result is the bit-serial CRC of the buffer, inverted |
| `Crc16.CheckValue` | libdisplaycolor/libdisplaycolor_default.cpp:109-118 | with its polynomial and initial value it is CRC-16/X-25, with the check value 0x906E |
| `DqeParcel.HeaderRoundTrip` | libdisplaycolor/include/hardware/exynos/libdisplaycolor_drv.h:31-38 | a data header is read back from its twelve bytes |
| `DqeParcel.GlobalRoundTrip` | libdisplaycolor/include/hardware/exynos/libdisplaycolor_drv.h:21-29 | so is the global header |
| `DqeParcel.HeaderBytes` | libdisplaycolor/include/hardware/exynos/libdisplaycolor_drv.h:31-38 | byte by byte where the fields of a data header lie |
| `DqeParcel.GlobalBytes` | libdisplaycolor/include/hardware/exynos/libdisplaycolor_drv.h:21-29 | and of the global header |
| `DqeParcel.MadeHeader` | libdisplaycolor/libdisplaycolor_default.cpp:294-324 | magic number, sizes with the terminating zero, CRC of text and zero |
| `DqeParcel.StampedHeader` | libdisplaycolor/libdisplaycolor_default.cpp:600-643 | total size and number of items of the parcel, cut to 16 bits |
| `DqeParcel.DeliveredWhen` | libdisplaycolor/libdisplaycolor_default.cpp:549-643 | when something is delivered, by the lengths of the texts, and which items, one by one |
| `DqeParcel.SizedWhenShort` | libdisplaycolor/libdisplaycolor_default.cpp:574-588 | the size comparison refuses exactly the items that do not fit a 16-bit size |
| `DqeParcel.WrittenFits` | libdisplaycolor/libdisplaycolor_default.cpp:294-358 | whatever is written, also by a call that fails, fits the room counted for the table if the transform's text fits 112 bytes and the table has at most one gamma matrix |
| `DqeParcel.WrittenIs` | libdisplaycolor/libdisplaycolor_default.cpp:549-643 | what is written for a stored table, also by a call that fails, in terms of the room counted, of what replacing gamma matrices adds and of the items left out |
| `DqeParcel.FitsExactly` | libdisplaycolor/libdisplaycolor_default.cpp:294-643 | what is written fits the room of the table, for every table and transform, if and only if the transform, as often as it is put in, takes no more than the space set aside, the matrices it replaces and the items left out |
| `DqeParcel.TwoGammasOutgrow` | libdisplaycolor/libdisplaycolor_default.cpp:570-593 | a table of two gamma matrices and a transform that just fits its space give a parcel longer than the room |
| `DqeParcel.FailedCallOutgrows` | libdisplaycolor/libdisplaycolor_default.cpp:570-593 | so does a call that fails at a third item of 64 KiB |
| `DqeParcel.LongTransformOutgrows` | libdisplaycolor/libdisplaycolor_default.cpp:549-643 | without a table the room is enough exactly for texts up to 112 bytes with their zero |
| `DqeReader.PrintDqeLut` | libdisplaycolor/libdisplaycolor_default.cpp:427-458 | the walk by item count shows exactly the items delivered, up to the 16-bit count |
| `DqeReader.CheckFormat` | libdisplaycolor/unittest/CS_02_libdisplaycolor.cpp:94-123 | the walk by total size accepts exactly the parcels in which some number of items adds up to both truncated fields |
| `DqeReader.SmallParcelsAddUp` | libdisplaycolor/unittest/CS_02_libdisplaycolor.cpp:94-123 | with fewer than 65536 items those are exactly the parcels below 65536 bytes |
| `DqeReader.ItemAt` | libdisplaycolor/libdisplaycolor_default.cpp:437-457 | every item is found, header, text and length, where the sizes before it add up to |
| `DqeLut.TransformTextFits` | libdisplaycolor/libdisplaycolor_default.cpp:529-543 | sixteen 32-bit values always fit the header's size; values from -9999 to 99999 also fit the 112 bytes |
| `DqeLut.TextReadsBack` | libdisplaycolor/libdisplaycolor_default.cpp:529-541 | split at its commas and read digit by digit, the text of any values is 1 and the values, without leading zeros |
| `DqeLut.TwosOutgrowTheirRoom` | libdisplaycolor/libdisplaycolor_default.cpp:529-543 | sixteen entries of 2.0 take 114 bytes, and their parcel is longer than the smallest size announced |
| `DqeLut.DisplayColor.constructor` | libdisplaycolor/libdisplaycolor_default.cpp:73-87 | the object starts with its CRC table filled, its header constants set, nothing stored and nothing pending, so the invariant holds |
| `DqeLut.DisplayColor.AddTable` | libdisplaycolor/libdisplaycolor_default.cpp:294-358 | a table is stored with sizes and CRCs unless the mode has one, and the size announced grows to its room |
| `DqeLut.DisplayColor.SetColorTransform` | libdisplaycolor/libdisplaycolor_default.cpp:512-547 | the transform's text, read back, is 1 and its sixteen values; its header has id 6, its size and its CRC |
| `DqeLut.DisplayColor.CopyTable` | libdisplaycolor/libdisplaycolor_default.cpp:570-593 | the loop copies the items with replaced gamma matrices, and stops at the first of the wrong size |
| `DqeLut.DisplayColor.AnswerIs` | libdisplaycolor/libdisplaycolor_default.cpp:549-566 | what is asked for is the table of the mode and intent, if set, with the transform, if enabled |
| `DqeLut.DisplayColor.GetDqeLut` | libdisplaycolor/libdisplaycolor_default.cpp:549-643 | success delivers exactly the parcel asked for and forgets the request; failure leaves the request pending |
| `DqeLut.DisplayColor.PendingFits` | libdisplaycolor/libdisplaycolor_default.cpp:548-643 | a buffer of the announced size holds everything that is written, if the transform fits its space and replaces at most one gamma matrix |
| `DqeLut.DisplayColor.PendingFitsExactly` | libdisplaycolor/libdisplaycolor_default.cpp:548-643 | what is written, also by a call that fails, fits the announced size if and only if its excess over the room of its table is no more than the largest table leaves to spare |
| `DqeLut.ParcelIsReadable` | libdisplaycolor/libdisplaycolor_default.cpp:427-458 | both readers understand what is delivered: the stored items with every gamma matrix replaced, and the transform appended when there was none |
| `SipcFrames.CommandFields` | cpboot_v3/ProtocolSipc.cpp:20-27 | the fields of a command word do not overlap when the operation fits a byte |
| `SipcFrames.CommandsDiffer` | cpboot_v3/ProtocolSipc.cpp:20-27 | then two command words are equal if and only if their fields are |
| `SipcFrames.StepsCollide` | cpboot_v3/ProtocolSipc.cpp:20-27 | dump step 0x101 has the command word of step 1 |
| `SipcFrames.CommandWords` | cpboot_v3/ProtocolSipc.cpp:20-27 | the command words of a transfer and of a dump step |
| `SipcFrames.FramesCover` | cpboot_v3/ProtocolSipc.cpp:323-361 | a binary gives as many frames as announced, numbered from 1, whose payloads are the binary |
| `SipcFrames.SegmentsCover` | cpboot_v3/ProtocolSipc.cpp:323-361 | every frame but the last is full and none is empty |
| `SipcFrames.NumFramesIsCeiling` | cpboot_v3/ProtocolSipc.cpp:336-339 | the announced number is the size over the segment size, rounded up |
| `SipcFrames.CompleteIffNumbered` | cpboot_v3/ProtocolSipc.cpp:273-316 | reception completes exactly on frames with the command, numbered in turn up to the announced number, and then has stored their payloads |
| `SipcFrames.FailsWhen` | cpboot_v3/ProtocolSipc.cpp:250-320 | reception fails with -14 at the first frame of another command, with -1 when frames run out, and what came before is stored |
| `SipcFrames.TransferIsWhole` | cpboot_v3/ProtocolSipc.cpp:250-320 | the frames of a binary are received as that binary, its size is returned, and frames behind them stay |
| `SipcFrames.SentIsReceived` | cpboot_v3/ProtocolSipc.cpp:250-420 | what the sender writes, under the other direction's command, is received as the binary sent |
| `SipcFrames.Sipc.DlTxFrame` | cpboot_v3/ProtocolSipc.cpp:377-420 | one frame with its piece of the buffer is written, or an error is returned |
| `SipcFrames.Sipc.DlSendBin` | cpboot_v3/ProtocolSipc.cpp:323-375 | success means all frames of the binary and the expected response; otherwise the frames written are the first ones |
| `SipcFrames.Sipc.UlRecvData` | cpboot_v3/ProtocolSipc.cpp:250-320 | one step's request, its stored bytes, the frames it uses and its return value |
| `SipcFrames.Sipc.ReceiveSteps` | cpboot_v3/ProtocolSipc.cpp:113-129 | all steps in order, then the comparison with the announced size |
| `SipcFrames.DumpIsWhole` | cpboot_v3/ProtocolSipc.cpp:113-129 | a dump sent in non-empty parts, one a step, is stored whole and counted as long as it is |
| `SipcFrames.DumpFails` | cpboot_v3/ProtocolSipc.cpp:100-140 | a dump fails exactly at the first step that runs out of frames or meets another command, with that step's value and what was stored by then |
| `SipcFrames.AcceptedIsStored` | cpboot_v3/ProtocolSipc.cpp:113-129 | a dump accepted for its announced size has stored that many bytes if and only if what was read with the frames out of turn makes up for what was stored before them |
| `SipcFrames.WrongIffBreaks` | cpboot_v3/ProtocolSipc.cpp:290-295 | a step ends on a wrong number exactly when a frame before the last announced one is followed by one out of turn, and what is then stored and returned |
| `SipcFrames.DumpIsCounted` | cpboot_v3/ProtocolSipc.cpp:113-129 | over all steps, the count and the bytes stored differ by what was read with frames out of turn less what was stored before them |
| `SipcFrames.UnbrokenIsStored` | cpboot_v3/ProtocolSipc.cpp:113-129 | without frames out of turn there is no difference |
| `SipcFrames.WrongNumberHides` | cpboot_v3/ProtocolSipc.cpp:290-295 | a broken step that chance makes add up |
| `SipcFrames.WrongNumberPasses` | cpboot_v3/ProtocolSipc.cpp:290-295 | a single frame out of turn passes for a dump of 16 bytes, of which none is stored |
| `DumpRing.Log.OrganizeDumpFiles` | cpboot_v3/Log.cpp:123-171 | a limit from 1 to 20 is kept and any other becomes 20; exactly the slots written fewer dumps ago than the limit keep their directories; the index moves on round the ring |
| `DumpRing.Log.RemoveDirectories` | cpboot_v3/Log.cpp:153-163 | the loop goes back round the ring and removes 21 minus the limit directories |
| `DumpRing.LoopEnds` | cpboot_v3/Log.cpp:145-163 | for any index property, the removal loop ends if and only if the index lies in the ring or so far below it that only slots without directories are passed |
| `DumpRing.LoopExample` | cpboot_v3/Log.cpp:145-163 | from index 21 with five dumps allowed it never ends |
| `DumpRing.DumpKeepsLast` | cpboot_v3/Log.cpp:123-171 | from any ring that holds the last dumps, the current slot is free, no dump is overwritten, and the ring holds the last dumps again |
| `DumpRing.RunHoldsLast` | cpboot_v3/Log.cpp:123-171 | over every run with changing limits, the ring holds exactly the last dumps, each in its slot |
| `DumpRing.SteadyLimit` | cpboot_v3/Log.cpp:123-171 | with one limit from 1 to 20, that many, and with any other 20, or all dumps if there are fewer |

## Left out

- NEON variants and the dummy converter, the hardware scaler, gralloc, HIDL, Codec2, OMX and V4L2 wrappers: bodies that are empty or calls into libraries that are not part of this model.
- Plane converters: offsets are unbounded numbers, so the statements are about planes whose offsets fit the source's integers; `Nv12tLayout.PlaneFits` shows that they need less than 32 bits up to 16384 by 16384. Tiling is stated for non-empty pictures of even size.
- The 128x64 branch of the public chroma de-interleaver is guarded by a differently spelled macro (libswconverter/swconvertor.c:1613), so its properties are those of `Nv12tUntileUV.TiledToLinearDeinterleaveCrop`; the 64x32 forms of the other public functions pass zero crop.
- SplitIsExact: stated for windows of even width; rows of an odd width have no two halves, and for them only what both planes show is stated (`Nv12tUntileUV.TiledToLinearDeinterleaveCrop`).
- TilesToY: the address of a word is taken to be a multiple of four bytes, as the source's word pointer has it.
- NV12T sources inside conv_sw and the P010 bypass are calls of converters and copies modelled elsewhere; for MFC memory the bypass is `MfcCopy.CopyMfcData`.
- CopyMfcData: planes are separate buffers and destination rows do not overlap; planes that share one buffer at offsets are not modelled.
- RGB565 sources: the same loops on other bit fields.
- ConvSwSrcRgb: stated for even sizes, as 4:2:0 buffers have them; the converters it calls are stated for all sizes.
- ConvSwSrcSemiPlanar: stated for uncropped even sizes, where there is an image to keep; `CscPaths.SplitSemiPlanar` is stated for every crop.
- Handles, plane setters and format tables of libcsc: bookkeeping without a property of its own.
- Monitor.Decision: thresholds[status] is read before the bound on status is tested (exynos-thermal/thermal-algo.cpp:71); the model reads it only below the bound, where the result is the same.
- Thermal devices: writing the value to its node, and the report device, which replaces its requests by 2 after reporting, are not modelled; the camera and CPU devices apply like the plain one.
- Thermal threads: the activation of algorithms by sensors, the sleep of algorithm threads, and a sensor thread that deactivates a monitor while its own thread decides are not modelled; algorithm names are distinct.
- WhatBlocks: one way only, about states in which no step of a switch is possible; from which states a switch can return is `ScenarioReturn.SwitchReturns`.
- SwitchReturns: says that some run returns, not that every run does, since a wakeup can be lost in most states. Rounds of a sensor thread are one state of work and timed sleep, in which it may switch virtual sensors of any thread on and off. The claim that old monitors all become inactive is not made: a monitor at level 0 ignores deactivation.
- Temperatures of virtual sensors: the mean accumulates on the previous value (exynos-thermal/thermal-sensor.cpp:157-170).
- SS.Decision: for start level 0 no order of the requests is claimed, because the cap compares an unsigned number.
- SBWC registry: 32-bit overflow of a count, formats and metadata; the allocator gives no buffer that is in use. Decompress: handles may be reused, so an answer is about handles, not about buffers.
- SetColorTransform: the matrix entries are given as rounded multiples of 1/65536; floating point is not modelled.
- AddTable: nodes come parsed; XML parsing, the list of modes and intents and logging are not modelled.
- PrintDqeLut: what is printed is returned.
- DlSendBin: binaries read from a file descriptor, and writes of command words that fail, are not modelled; byte counters do not wrap. UlRecvData: writing to the dump file always succeeds, and a frame carries the payload length it announces.
- OrganizeDumpFiles: stated for an index property in the ring, where every run keeps it; for others `DumpRing.LoopEnds` says when the loop ends at all.
- Properties, files, polling, configuration and the daemons' main loops: input and output.
