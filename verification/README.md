# ipts heatmap touch pipeline, in Dafny

This project models the touch pipeline of `ipts.c`, a user-space driver for
the Intel Precise Touch digitiser. It covers the per-read processing that
turns one 7485-byte read into uinput multitouch events.

1. The report walker finds the heatmap and stylus reports in the nested
   envelope. That envelope is a HID header, a raw header, sub-frames and reports.
2. Extraction turns the 64x44 heatmap into intensities, mirrored on both
   axes, inverted, and reduced by a baseline of 100.
3. Seed detection (`is_brightest`) finds local maxima.
4. Region growing (`assign_group_dimmer`) is a recursive flood fill from
   each seed. It is capped at 128 pixels, and a row-major scan starts at most 16 clusters.
5. Geometry gives each cluster its weighted centre, its diameter (total
   intensity / 100) and a square box. A cluster becomes valid above diameter
   0.5. Palm rejection applies above diameter 10.
6. Overlap removal compares every pair of valid clusters.
7. Contact tracking inherits ids from the nearest previous contact, then
   hands out the lowest unused id.
8. Slot mapping writes six multitouch slots, the single-touch `BTN_TOUCH`
   rule and a sync.
9. The read loop alternates two cluster groups. A short read changes
   nothing. Every full read zeroes the current group and flips the selector.

Modules follow those stages:

- `Grid`
- `Extraction`
- `Seeds`
- `Flood`
- `Clusters`
- `Geometry`
- `Overlap`
- `Tracking`
- `Emit`
- `Parser`
- `Pipeline`

Bytes and the C `uint8_t` fields are the subset type `u8`. C `float`
arithmetic is exact `real` arithmetic. The validity test `> 0.5f` and the
palm test `> 10.f` compare a diameter that is an integer sum below 2^24
divided by 100, so they depend only on the exact sums. The overlap ratio
(0.25) and the tracking distance (`<`) are computed from rounded float
centres and corners, and the model makes those comparisons on exact reals
instead. uinput writes are
an abstract `Event` sequence. The C never bounds-checks its reads. Where
it would read outside the buffer, the walker stops and reports
`OutOfBounds` with the offset and the width of that read.

## Model

| member | source | states |
|---|---|---|
| Grid.OffsetsAreAdjacency | ipts.c:114-125 | the eight neighbour offsets visited by the fill (and by `is_brightest`) are exactly the 8-neighbourhood |
| Extraction.Level | ipts.c:320-321 | the intensity of a raw byte is 155 - raw when raw is at most 155 and 0 otherwise, always within 0..155 |
| Extraction.Extract | ipts.c:316-326 | every cell (x, y) carries its own coordinates and the level of source byte (63-x, 43-y); every value is at most 155 |
| Extraction.ExtractRoundTrip | ipts.c:316-326 | for bodies with bytes at most 155, the body is recovered exactly from the grid: extraction loses nothing but the clamped range |
| Seeds.IsBrightestExact | ipts.c:129-145 | a cell is a seed iff it is lit and no in-bounds 8-neighbour is strictly brighter (equal neighbours are both seeds) |
| Seeds.SeedsExact | ipts.c:329-339 | the scan's seed list holds exactly the seeds of the grid, each once, in strictly increasing row-major order |
| Seeds.DarkHeatmapHasNoSeeds | ipts.c:130 | a heatmap with no lit cell has no seeds |
| Flood.Grow | ipts.c:96-126 | the fill only appends to the cluster and never takes it past 128 pixels |
| Flood.GrowEntry | ipts.c:98-111 | a call adds nothing exactly when one of the four early returns fires; otherwise it appends the grid pixel first, which is no brighter than the threshold |
| Flood.GrowDistinct | ipts.c:101-103 | no coordinate is ever appended twice |
| Flood.GrowCopies | ipts.c:106-111 | every appended pixel is a lit copy of its grid cell no brighter than the threshold of the call |
| Flood.GrowDescends | ipts.c:114-125 | every appended pixel after the first is 8-adjacent to an earlier appended pixel that is at least as bright |
| Flood.GrowClosed | ipts.c:114-125 | when the fill returns, every in-bounds neighbour of every appended pixel is refused by the final cluster under that pixel's value |
| Clusters.ScanFromCount | ipts.c:329-339 | the scan starts min(16, number of seeds) clusters |
| Clusters.ScanFresh | ipts.c:329-339 | on zeroed storage, record k < count starts with the k-th seed in row-major order, holds 1..128 distinct lit copies no brighter than that seed, and every later record stays zeroed |
| Clusters.ScanNonEmpty | ipts.c:335-337 | on any storage, every started record holds at least one pixel, so its total weight is positive |
| Clusters.ScanKeepsOldPixels | ipts.c:98-111 | the scan appends to whatever pixels a record already holds; they stay at its front |
| Geometry.Measure | ipts.c:343-365 | the centre is the intensity-weighted mean position plus 0.5, diameter * 100 is the total intensity, and the box is the square of side diameter around the centre; the record becomes valid iff it was valid or its weight exceeds 50 |
| Geometry.CentreOnHeatmap | ipts.c:345-354 | the centre of a lit cluster lies within [0.5, 63.5] x [0.5, 43.5] |
| Geometry.SinglePixel | ipts.c:345-356 | a one-pixel cluster is centred on the middle of that cell and has diameter value / 100 |
| Geometry.LocateRecord | ipts.c:341-372 | each started record keeps pixels and id and gets its own geometry; it is valid afterwards iff (it was valid or its weight exceeds 50) and no started record weighs more than 1000; other records are untouched |
| Geometry.PalmDisablesTouch | ipts.c:364-372 | once any started cluster weighs more than 1000 (diameter above 10), no started cluster is valid |
| Overlap.TieInvalidatesEarlier | ipts.c:384-392 | of two valid, clashing clusters of equal area, the lower-indexed one is invalidated and the other kept |
| Overlap.OverlapOnlyClears | ipts.c:374-395 | overlap removal changes nothing but valid flags among the started records, and only ever clears them |
| Overlap.OverlapLeavesNoClash | ipts.c:374-395 | afterwards no two valid records overlap by more than 0.25 of the smaller box |
| Overlap.OverlapJustified | ipts.c:374-395 | a record is invalidated only when it clashed with a valid record whose box is larger (or equal, if it has the lower index) |
| Tracking.ClosestIsNearest | ipts.c:401-411 | the match for a previous contact is the first nearest valid unnumbered record strictly closer than 1000000, and there is none iff no such record is that close |
| Tracking.LowestUnusedFrom | ipts.c:421-432 | the id handed out is the smallest id from the start on that no started record holds |
| Tracking.TrackOnlyIds | ipts.c:397-435 | tracking changes nothing but the ids of valid started records |
| Tracking.TrackNumbers | ipts.c:397-435 | from unnumbered records and a numbered previous group, every valid record ends with a positive id, ids are distinct, and invalid records keep 0; each valid record's id is either held by a valid previous contact or is one below which every positive id is in use |
| Tracking.StaleIdDuplicated | ipts.c:399-415 | on records that still carry an id, a valid record keeping id v and the only unnumbered valid record inheriting v from the nearby previous contact end with the same id, so the group is not numbered |
| Tracking.FreshContactsNumberedInOrder | ipts.c:418-435 | with no valid previous contact, the valid records are numbered 1, 2, ... in record order |
| Tracking.LoneContactKeepsId | ipts.c:399-415 | a single valid contact near the single previous contact inherits that contact's id |
| Emit.Trunc | ipts.c:508-514 | a float argument passed as an `int` is truncated toward zero |
| Emit.SlotTrackingId | ipts.c:503-520 | slot s reports tracking id s + 1 iff some valid contact has id s + 1, and -1 otherwise |
| Emit.TouchButton | ipts.c:495-523 | `BTN_TOUCH 0` is sent iff the number of valid contacts is not 1; `BTN_TOUCH 1` iff it is 1 and that contact's id is one of the six slots |
| Emit.LoneHighIdIsSilent | ipts.c:512-523 | a lone valid contact with an id above 6 makes the report send neither `BTN_TOUCH 1` nor `BTN_TOUCH 0` |
| Emit.ReleaseAll | ipts.c:503-525 | with no valid contact the report is exactly: every slot released, `BTN_TOUCH 0`, sync |
| Parser.ReadLe32 | ipts.c:63-68 | the little-endian 32-bit read inverts the encoding of the header field |
| Parser.StylusElements | ipts.c:305-309 | the element list is complete exactly when every announced element lies in the buffer; it then has as many entries as announced, and entry n is the element read at `pos + 8 + n * 16` |
| Parser.SubFrameEndAsWritten | ipts.c:293 | `pos + size` stored in an `int` lies in the 32-bit signed range, is congruent to the true sum modulo 2^32, and equals it when the true sum fits |
| Parser.WalksAgree | ipts.c:287-535 | when every sub-frame end along the walk fits in an `int`, the walk as written and the walk with unwrapped ends are the same walk |
| Parser.WalkAscends | ipts.c:287-535 | with unwrapped sub-frame ends, the sections the walk visits lie at strictly increasing offsets: it always moves forward |
| Parser.WalkFits | ipts.c:310-312 | every heatmap section the walk yields is a 0x25 report whose 2816-byte body lies inside the read |
| Parser.SingleHeatmapWalk | ipts.c:282-312 | a read with one touch sub-frame holding one heatmap report yields exactly that heatmap, whose body starts right after its 4-byte header |
| Parser.WrapRevisitsHeader | ipts.c:293 | as written, a non-touch sub-frame whose size wraps `eof` back to its own header is visited again: the sections are not ascending |
| Parser.WrapCorrected | ipts.c:293 | with the unwrapped end, the same read visits that sub-frame once and then stops at the end of the buffer |
| Pipeline.ProcessedRecord | ipts.c:341-435 | after the stages that follow the scan, a record keeps its pixels and gets their geometry; it is valid only if it was valid or weighs more than 50 and no started record weighs more than 1000; an existing id is kept; records from the count on are untouched |
| Pipeline.ProcessedNumbered | ipts.c:341-435 | records without ids leave the stages numbered when the previous group was numbered |
| Pipeline.FreshHeatmapNumbered | ipts.c:329-435 | a heatmap processed on zeroed storage against a numbered previous group gives a numbered group |
| Pipeline.PalmReleasesAll | ipts.c:364-525 | a heatmap with a cluster heavier than 1000 releases every slot and `BTN_TOUCH`, and sends nothing else |
| Pipeline.FrameStepSound | ipts.c:261-273 | for the corrected step (unwrapped sub-frame ends, records zeroed before each heatmap): a short read changes nothing and sends nothing; a full read flips the current group; both groups stay numbered |
| Pipeline.NoHeatmapNoEvents | ipts.c:268-273 | a full read with no heatmap zeroes the current group, flips the selector and sends nothing |
| Pipeline.SingleHeatmapFrame | ipts.c:261-535 | a read holding one heatmap processes exactly that body, on zeroed storage, against the other group, and stores the result in the current group |
| Pipeline.SingleHeatmapReadsAgree | ipts.c:269-329 | when every sub-frame end along the walk fits in an `int` (so none wraps) and the read holds at most one heatmap, the step as written and the corrected step agree |
| Pipeline.FreshClusterStartsAtSeed | ipts.c:329-339 | on zeroed storage, processed record k is the cluster of the k-th seed and starts at it |
| Pipeline.StaleClusterKeepsPixels | ipts.c:269-339 | on storage a previous heatmap filled, each record keeps those old pixels at its front |
| Pipeline.TwoHeatmapsStale | ipts.c:269-339 | as written, with two heatmaps in one read, cluster 0 left for the next read starts at the first heatmap's seed; it differs from the corrected result whenever the two first seeds differ |
| Pipeline.TwoHeatmapsFresh | ipts.c:269-339 | corrected, cluster 0 left for the next read starts at the second heatmap's own first seed |

## Left out

- The SDL window, textures, fonts and drawing (ipts.c:161-168, 253-258, 437-493) are presentation only.
- The uinput device setup (ipts.c:170-220) and the `write` inside `emit` (ipts.c:147-158) are OS I/O. Emission is the abstract `Event` sequence.
- Opening the file, `read` and the `lseek` rewind (ipts.c:222-266) are I/O. A read is the byte sequence it returned. Only its length matters: a short read changes no state.
- The stylus `printf`s (ipts.c:303-308) are output. The model keeps only the serial, the element fields and their offsets `pos + 8 + 16 n`.
- IEEE float rounding and the libm functions `pow`, `fmin` and `fmax` are not modelled; all geometry is exact `real` arithmetic.
- The walker does not read past the buffer. Such a read is undefined behaviour in C, and the model stops the walk at it with `OutOfBounds`.
- The loop counter `n` over `frames` is an `int` compared against a `uint32_t`; counts above 2^31 are not modelled.
- The `uint8_t` fields `cluster->size` and `cluster_group->size` never exceed 128 and 16, so their width never matters.
- The uinput axis limits and the ten configured slots (only six are used) belong to the setup code, which is not part of this model.
- Position and diameter events carry `Trunc(v * 16)` on exact reals. The float product may round differently by one unit at half-way points.
- The comment at ipts.c:383 says 50%. The model follows the code, which compares against 0.25.

## Findings

| source | as written | input that shows it | evidently intended | confidence | as-written member | corrected member |
|---|---|---|---|---|---|---|
| ipts.c:293 | `int eof = pos + size` adds a `uint32_t` size in 32-bit arithmetic; a size near 2^32 wraps `eof` below `pos`, and `pos = eof` (ipts.c:533) moves the walk backwards | a read announcing two sub-frames, the first of type 0 with size 2^32 - 16: `eof` wraps to 22, its own header, which is then visited a second time | the sub-frame ends at `pos + size` without wrapping, so the walk only moves forward | not executed | Parser.WrapRevisitsHeader | Parser.WrapCorrected |
| ipts.c:269, 329 | the group is zeroed once per read (ipts.c:269), but each heatmap report only resets `cluster_group->size` (ipts.c:329), so a second heatmap in the same read grows its clusters into records still holding the first heatmap's pixels, flags and ids; a stale id can then be handed out a second time (Tracking.StaleIdDuplicated) | a read with two heatmap reports whose first seeds differ: cluster 0 of the second heatmap starts with the first heatmap's seed pixel | each heatmap starts from zeroed cluster records | not executed | Pipeline.TwoHeatmapsStale | Pipeline.TwoHeatmapsFresh |
