# The encoder's delivery, re-proved

This repository is an offline encoder for a Sega CD video codec. It decides which
8x8 patterns, palettes and sound chunks each frame gets, plans how they reach the
player through CD sectors, PRG-RAM, two Word-RAM rings and a dictionary, writes
the two disc files, and checks the result by replaying it. This project models
that chain in Dafny and proves what the encoder relies on. Imperative code is
modelled as methods, with arrays and classes where the source updates arrays and
objects, each proved against a specification function; the laws are lemmas about
those functions.

| file | what it models |
|---|---|
| `PatternRuns`, `WordRing`, `Delivery`, `Movie`, `Timing`, `SupplyPlan`, `RingReplay`, `PackedMovie`, `PrefetchOrder`, `TileContents` | From the resolver's decisions to a replayed disc: the source partition, run grouping, ring splitting at carried cursors, two-word descriptors, and a player that pops four sources or reads two rings. Main results: `PackedMovie.PackAndReplay`, `TileContents.EntryShowsPattern`, `RingReplay.RingDelivers`. |
| `SectorPrefix`, `SectorPlanner`, `JointPlan` | The shared sector pool: the online planner, its prefix check, and the fixed-point iteration on the cold ceiling. |
| `WaterFill` | Preload credits from a heap with stale entries. |
| `HuffmanOptimality`, `HuffmanLengths`, `HuffmanCodes`, `HuffmanChunks` | Code lengths from merged nodes, canonical codes (as in section 3.2.2 of RFC 1951), the bit packer and the chunk table. |
| `Adpcm`, `AdpcmTracking`, `AdpcmTables` | IMA ADPCM with checkpoints (the scheme section 4.5.1 of RFC 3551 refers to, with this repository's nibble order), and its table-driven decoder. |
| `Checkerboard` | Palette lines by checkerboard descent, in place and for the whole array. |
| `BodySlots` | The BODY.DAT slot writer and its byte-for-byte verifier. |
| `FadeRuns`, `FadeDetector`, `FadeGroups`, `FadeSelection`, `FadeChoice`, `FadeLayout`, `FadePalette`, `FadeOverlay` | Fade shots between black runs, the groups chosen within a palette capacity, the layout rebuilt from them, and per-frame targets. Main results: `FadeDetector.DetectedDisjoint`, `FadeChoice.ChosenIff`, `FadeDetector.DetectAndLay`. |
| `Tokens`, `TokenLeases`, `TokenScans` | Counting locks over flock, as interleaved steps of any number of processes. |
| `Arith`, `Sorting` | Results, bytes, slices and a little arithmetic; the stable sort by a key. |

Numbers are mathematical integers; s16 samples, bytes and descriptor words are
subset types or explicit ranges. Weights and scales are exact reals.

Where the code and its own words differ, the model follows the code:

- `build_joint_plan` justifies its fallback by saying that a raised ceiling cannot
  raise accepted payload. With that premise the closing consistency error is
  unreachable (`JointPlan.JointPlanConverges`); without it, it is reached
  (`JointPlan.FallbackNeedsAntitone`).
- `build_layout` treats exceeding the palette capacity as impossible. For the shots
  the detector makes, whose groups occupy disjoint frame ranges
  (`FadeDetector.DetectedDisjoint`), it happens exactly when the movie starts over
  capacity and no single group brings it within (`FadeDetector.DetectAndLay`;
  `FadePalette.UnfadedOverflow` is the least such movie). For shots made by hand,
  overlapping groups can reach it as well (`FadeSelection.OverlapBreaks`).
- `verify_body_delivery_file` does not look for control or payload bytes left
  over; the traces it compares do tell (`BodySlots.AcceptedInFull`).
- `plan_frame_budgets` checks the dictionary total against a capacity it never
  refuses when negative; that check alone can fail (`WaterFill.CountOnlyBudget`).
- `acquire_tokens` with `wait=False` may find a resource busy although no lease is
  out (`TokenLeases.BothRefused`). It can do so exactly when the slots that rivals
  may lock meanwhile leave fewer than it asks for (`TokenScans.RefusableIff`).

Two loops that look at odds are not: `plan_supply` queues prefetched patterns in
list order while `sourced_transfer_runs` writes their slots in slot order. That is
right exactly when every list is in slot order (`PrefetchOrder.PrefetchOrderExact`),
and the resolver sorts every list (tools/pack_stream.py:620), which discharges the
order premise of `PackedMovie.PackAndReplay`.

## Model

| member | source | states |
|---|---|---|
| `PatternRuns.GroupRuns` | tools/pattern_supply.py:355-406 | Succeeds exactly for matching lengths and known sources, and then returns the grouping `SourceRuns`, whose meaning the next rows prove. |
| `PatternRuns.SourcedColdRuns` | tools/pack_stream.py:658-689 | Grouping while skipping reused updates gives the same runs as grouping the cold items alone, up to the shortest of the four lists; dictionary indices left out count as -1. |
| `PatternRuns.ColdItemAt` | tools/pack_stream.py:664-676 | The items grouped are the cold updates, each once and in order, each for the slot one below the tile that its entry's low eleven bits name. |
| `PatternRuns.RunsExpand` | tools/pattern_supply.py:355-406 | The runs expand to exactly the items in order, each run is legal, and no Dic run crosses a 256-entry block. |
| `PatternRuns.RunsAreFewest` | tools/pattern_supply.py:355-406 | No division of the items into contiguous legal runs has fewer records. |
| `PatternRuns.EncodeDecode` | tools/pattern_supply.py:286-343 | Every run that has a descriptor fits two 16-bit words and decodes back to itself. |
| `PatternRuns.DecodeEncode` | tools/pattern_supply.py:286-343 | Every pair of words that decodes encodes back to the same words. |
| `PatternRuns.PoolRunsEncode` | tools/pattern_supply.py:286-406 | Every run grouped from items inside the pool has a descriptor that decodes to it. |
| `WordRing.SplitWordRingRuns` | tools/pattern_supply.py:421-460 | Refuses exactly bad capacities, cursors and counts; otherwise returns the split and the cursor advanced by the WordBuf total modulo capacity. |
| `WordRing.SplitExpands` | tools/pattern_supply.py:421-460 | Splitting changes no destination, source or order. |
| `WordRing.SplitInside` | tools/pattern_supply.py:421-460 | No split record crosses the ring end, and the records take exactly the total. |
| `WordRing.FrameReadsQueue` | tools/pattern_supply.py:421-460 | Reading a circular store at a frame's record addresses hands out the front of the queue it holds, and the rest of the queue stays held at the advanced cursor. |
| `WordRing.RefillAppends` | tools/pack_stream.py:1384-1394 | Writing a refill behind the queue extends the queue by exactly those patterns. |
| `WordRing.RingRefinesQueue` | tools/pack_stream.py:1384-1405 | For every interleaving of refills and frames that keeps occupancy within capacity, the ring hands out what a FIFO queue would. |
| `Delivery.ReplayRuns` | tools/pack_stream.py:1497-1516 | The replay loop of one frame computes `PlayWords`, error cases included. |
| `Delivery.NothingSilent` | tools/pack_stream.py:1508-1516 | One pattern either reaches the tile of its slot from the head of its own source, or is counted: exactly when the source is empty or the slot is outside the pool. |
| `Delivery.ServeRuns` | tools/pack_stream.py:1497-1516 | Replaying encoded runs that expand to a prefix of a frame's takes serves exactly those takes. |
| `Delivery.FrameDelivers` | tools/pack_stream.py:1497-1516 | One frame end to end: grouped, split, encoded and replayed runs put every assigned pattern in the tile of its slot, count nothing bad, and take exactly the frame's share from each queue. |
| `Movie.DecodeVerify` | tools/pack_stream.py:1340-1516 | The frame loop of the verifier computes the replay `After` and its closing verdict. |
| `Movie.StartIs` | tools/pack_stream.py:1340-1362 | The replay starts exactly when the boot sidecar asks for no more patterns than frame 0 carries and for slots inside the pool. |
| `Movie.CloseIs` | tools/pack_stream.py:1590-1602 | The verdict needs both refills fully staged, and each WordBuf pattern left over counts. |
| `Movie.FrameZeroTiles` | tools/pack_stream.py:1352-1362 | Writing the boot sidecar before frame 0's inline part leaves the tiles as if all came in order. |
| `Movie.EveryFrameDelivered` | tools/pack_stream.py:1340-1516 | After every frame the tiles hold exactly what the resolver assigned and nothing bad was counted. |
| `Movie.MovieDelivered` | tools/pack_stream.py:1590-1602 | When every pattern arrives in time, at the end every queue is empty and every refill was staged. |
| `Timing.PlayWordsCounts` | tools/pack_stream.py:1497-1516 | A frame replayed without error and with nothing bad took from each queue exactly what its runs draw from it. |
| `Timing.CleanCounted` | tools/pack_stream.py:1340-1516 | If nothing bad was counted so far, every earlier frame found its patterns arrived, and each queue holds what has arrived and not been drawn. |
| `Timing.CleanIffInTime` | tools/pack_stream.py:1340-1602 | The verdict of a disc that carries the movie is clean if and only if every pattern arrives before it is popped and every refill is staged. |
| `SupplyPlan.ConsumeUpdates` | tools/pattern_supply.py:1037-1044 | One frame's updates extend each source's stream in transfer order; it fails exactly when a Dic pattern is missing from the dictionary. |
| `SupplyPlan.ConsumePrefetch` | tools/pattern_supply.py:1045-1047 | One frame's cold prefetches extend the Prg stream in list order. |
| `SupplyPlan.ConsumeMovie` | tools/pattern_supply.py:1005-1047 | Over the movie, the Prg stream and both WordBuf streams are the assigned patterns in chronological order, and every Dic update gets its dictionary index. |
| `SupplyPlan.CutStreams` | tools/pattern_supply.py:1049-1092 | Succeeds exactly when the boot counts and the staged sectors fit the streams; then each parity is cut at its boot count, boot part plus refill is the whole stream, and the stage trace is the ring's own (none without a ring). |
| `SupplyPlan.PlanSupply` | tools/pattern_supply.py:900-1095 | Succeeds exactly on plannable input and then lays the movie out, each parity cut at its boot count and refilled by the ring's own stage trace. |
| `SupplyPlan.OrderCoversIs` | tools/pattern_supply.py:932-943 | The transfer order accepted names every cold update once, and nothing else. |
| `SupplyPlan.SourcesFrozenIs` | tools/pattern_supply.py:863-895 | The sources accepted are the three known ones, and Prg for all of frame 0 and every update that is not cold. |
| `SupplyPlan.NoDuplicatesIs` | tools/pattern_supply.py:993-994 | The dictionary accepted has as many different patterns as patterns. |
| `SupplyPlan.SourcesPartition` | tools/pattern_supply.py:1090-1095 | The four sources partition the pattern stream, so the closing occurrence count always agrees. |
| `PackedMovie.TransferRuns` | tools/pack_stream.py:692-726 | Updates in transfer order, then cold prefetches by slot, are grouped; it fails exactly on a wrong order or an unknown source. |
| `PackedMovie.ItemsAreTakes` | tools/pack_stream.py:692-726 | With prefetches in slot order, the grouped items are the frame's takes in delivery order. |
| `PackedMovie.FrameEncodes` | tools/pack_stream.py:1192-1208 | Every split record of a servable frame fits the two-word form. |
| `PackedMovie.BuildControl` | tools/pack_stream.py:1185-1210 | The written descriptors encode each frame's runs split at its parity's carried ring cursor: the WordBuf total of the parity's earlier frames, modulo capacity. |
| `PackedMovie.PlanCarries` | tools/pack_stream.py:1110-1210 | An accepted plan and its control words make a disc that carries the movie. |
| `PackedMovie.PackAndReplay` | tools/pack_stream.py:1110-1602 | Main result: a plannable movie is packed onto a disc with the given arrival schedule, boot counts and stage trace that carries it at the carried cursors; the verdict is the replay of that disc; it is clean if and only if every pattern arrives in time, a condition on the inputs alone; and then every slot holds its assigned pattern and every queue is empty. Any other movie is refused. |
| `TileContents.EntryNamesTile` | tools/pack_stream.py:706-709 | The tile a transfer writes is the one in the low eleven bits of the update's name-table entry, and its pattern is the next one of the frame's patterns. |
| `TileContents.EntryShowsPattern` | tools/pack_stream.py:1490-1521 | Main result: in a replay in time, after any frame, the Video RAM tile named by a cold update's entry holds the pattern assigned to that update, unless a later transfer has written the tile. |
| `TileContents.PrefetchWaits` | tools/pack_stream.py:1490-1516 | The tile of a cold prefetch holds its pattern until a later transfer writes the tile. |
| `RingReplay.StoreHolds` | tools/pack_stream.py:1384-1405 | Loaded with the boot contents and refilled frame by frame behind its queue, each ring holds its parity's queue from the carried cursor on, before every frame. |
| `RingReplay.RingDelivers` | tools/pattern_supply.py:421-460 | Main result: on a disc that carries the movie in time, with room in both rings, reading the ring at each frame's written records hands out exactly that frame's WordBuf patterns, and no record crosses the ring end. |
| `PrefetchOrder.ReplaysSorted` | tools/pack_stream.py:710-726 | What a replay does with prefetches: slots in slot order take patterns in list order. |
| `PrefetchOrder.PrefetchOrderExact` | tools/pack_stream.py:710-726 | Different patterns for different slots reach their slots if and only if the list is in slot order. |
| `SectorPlanner.VerifyPrefix` | tools/physical_budget.py:88-175 | Refuses exactly malformed traces and sizes; otherwise accepts exactly when every timed slot has a non-negative margin and reports the margins, or else names the first slot that does not fit. |
| `SectorPlanner.BootIsFree` | tools/physical_budget.py:74-86 | Whatever frame 0 holds, the timed work is that of the other frames. |
| `SectorPlanner.LargestFitting` | tools/physical_budget.py:347-366 | The binary search returns a fitting value whose successor does not fit; for a monotone test, the largest fitting value. |
| `SectorPlanner.SharedSectorPlanner.constructor` | tools/physical_budget.py:188-260 | A new planner is at frame 0 with nothing open and a solvent empty history. |
| `SectorPlanner.SharedSectorPlanner.BeginFrame` | tools/physical_budget.py:323-385 | Offers a limit exactly when the frame is due and none is open, and records it in all five rows. The offer is exact: one more pattern passes the maximum, overruns the previous slot's 2048-byte sectors, or with a ring does not fit the schedule; one more control byte overruns this slot or passes its maximum. |
| `SectorPlanner.SharedSectorPlanner.WithinLimitIsSolvent` | tools/physical_budget.py:323-385 | Any work within the open limit keeps every past and present deadline. |
| `SectorPlanner.SharedSectorPlanner.CommitFrame` | tools/physical_budget.py:387-459 | Accepts exactly work within the limits; the prefix check inside never raises. |
| `SectorPlanner.SharedSectorPlanner.RealizedIsProven` | tools/physical_budget.py:446-456 | The prefix check of a solvent history succeeds on the traces commit passes to it. |
| `SectorPlanner.SharedSectorPlanner.Finish` | tools/physical_budget.py:461-514 | A plan exists exactly for a complete movie; it reports every limit row, the sector capacity and each frame's shortfall, and its realized traces meet every deadline. |
| `SectorPrefix.CapacityNonDecreasing` | tools/physical_budget.py:229-241 | The useful capacity starts at 0 and never falls. |
| `SectorPrefix.CapacityIsTheLesser` | tools/physical_budget.py:229-239 | The useful capacity of a slot is the lesser of the route's sectors and what the drive has delivered. |
| `SectorPrefix.FrameFits` | tools/physical_budget.py:122-152 | From frame 2 on, a frame keeps the prefix valid if and only if its Prg work fits the previous slot and its control block fits this one. |
| `SectorPrefix.OfferIsSafe` | tools/physical_budget.py:262-275 | A frame within the offered limits keeps all deadlines, those of earlier slots included. |
| `SectorPrefix.RunIsSolvent` | tools/physical_budget.py:323-459 | Over any run that obeys its offers, no deadline is ever missed, at any point on the way. |
| `SectorPrefix.OfferLeavesControl` | tools/physical_budget.py:262-275 | Taking the whole Prg offer never eats into sectors control has used, so no clipping at zero happens. |
| `SectorPrefix.PrgLimitIsTight` | tools/physical_budget.py:332-346 | One Prg pattern above the sector-bound limit overruns the previous slot, from frame 2 on. |
| `SectorPrefix.ControlLimitIsTight` | tools/physical_budget.py:262-275 | With the whole Prg offer taken, one control byte above the limit overruns the current slot. |
| `JointPlan.BuildJointPlan` | tools/physical_budget.py:677-762 | The loop with its `seen` list computes `Passes`, with every outcome distinguished. |
| `JointPlan.OnlyTwoCycles` | tools/physical_budget.py:703-712 | For an antitone pass the only earlier ceiling that can come back is the last but one. |
| `JointPlan.PassesSettle` | tools/physical_budget.py:688-762 | From any point of the iteration the loop ends in a fixed point or two ceilings that lead to each other, each the lesser of the original ceiling and the other's payload plus preload; in a schedule error; or at the cap. |
| `JointPlan.ChainIsShort` | tools/physical_budget.py:688-742 | Each pass strictly narrows the gap between the falling even and the rising odd ceilings, so their number is bounded. |
| `JointPlan.CapNotReached` | tools/physical_budget.py:688-745 | A cap above the total ceiling is never reached. |
| `JointPlan.PlannedCovers` | tools/physical_budget.py:677-762 | Whatever the pass does, a returned ceiling lies within the original one and covers accepted Prg plus preload; it is where the passes stand still, or the top of the cycle they fell into, raised at most once; the number of passes is counted. |
| `JointPlan.JointPlanConverges` | tools/physical_budget.py:677-762 | For an antitone pass the closing consistency error is unreachable and every plan is a fixed point or two-cycle. |
| `JointPlan.FallbackNeedsAntitone` | tools/physical_budget.py:656-658 | A pass that is not antitone reaches the consistency error after the single raise. |
| `WaterFill.BestIsBest` | tools/pattern_supply.py:562-585 | The specification's choice is an open frame that comes before every other open frame, and there is one whenever any frame is open. |
| `WaterFill.TopIsBest` | tools/pattern_supply.py:602-626 | A heap entry on top with a current generation names the best open frame. |
| `WaterFill.AllocateCredits` | tools/pattern_supply.py:588-632 | The heap loop leaves the three arrays exactly as repeatedly crediting the best frame would, and gives in order of need. |
| `WaterFill.FillConserves` | tools/pattern_supply.py:588-632 | Every frame's credits move from available to target, counted in allocated; only named frames gain and none is overdrawn. |
| `WaterFill.FillStops` | tools/pattern_supply.py:617-632 | No more than the capacity is handed out, and less only when no named frame has anything available. |
| `WaterFill.FillIsFair` | tools/pattern_supply.py:562-632 | No open frame's next credit outranks the last credit any other frame received. |
| `WaterFill.FillInOrder` | tools/pattern_supply.py:562-632 | On the demand itself: no frame is served past its protected count while an open frame is short of its own; frames short of it are served by protected bytes left, all others by exact bytes left, then cold count, then index. |
| `WaterFill.FramesAreASet` | tools/pattern_supply.py:614-615 | Naming a frame twice or in another order changes nothing. |
| `WaterFill.FillResumes` | tools/pattern_supply.py:588-632 | Two calls on shared arrays act as one with their capacities added. |
| `WaterFill.CountOnlyBudget` | tools/pattern_supply.py:810-829 | Both banks and the dictionary stay within capacity and within each frame's demand, and each leaves demand uncovered only when it is full. |
| `HuffmanOptimality.SwapHelps` | tools/quantize_md_video.py:200-208 | Giving the longer code to the lighter weight keeps Kraft's sum and costs no more. |
| `HuffmanOptimality.MergeLengths` | tools/quantize_md_video.py:200-208 | Merging two equal codes keeps Kraft's sum and saves exactly the merged weight. |
| `HuffmanOptimality.MergeCostIsLeast` | tools/quantize_md_video.py:200-208 | No feasible lengths cost less than the sum of the merges of least pairs. |
| `HuffmanLengths.MergeQueue` | tools/quantize_md_video.py:198-208 | The parents recorded by the merge loop link every symbol to the root of the merge tree. |
| `HuffmanLengths.CodeLengths` | tools/quantize_md_video.py:186-223 | The heap, the parents and the climbs give every symbol its depth in the merge tree, degenerate alphabets included. |
| `HuffmanLengths.LengthsCost` | tools/quantize_md_video.py:186-223 | With two or more used symbols the encoded size is the sum of the merges. |
| `HuffmanLengths.LengthsFeasible` | tools/quantize_md_video.py:186-223 | Every used symbol gets at least one bit and Kraft's inequality holds. |
| `HuffmanLengths.LengthsComplete` | tools/quantize_md_video.py:186-223 | With two or more used symbols Kraft's inequality is an equality. |
| `HuffmanLengths.LengthsOptimal` | tools/quantize_md_video.py:186-223 | No lengths that give used symbols at least one bit and satisfy Kraft's inequality encode the data in fewer bits. |
| `HuffmanLengths.LengthsFitBytes` | tools/quantize_md_video.py:283-284 | No length exceeds 255, so the length table fits its bytes. |
| `HuffmanCodes.CanonicalCodes` | tools/quantize_md_video.py:226-236 | Exactly the symbols with a length get a code of that length, numbered in (length, symbol) order. |
| `HuffmanCodes.CodeIsStart` | tools/quantize_md_video.py:226-236 | Each code, scaled to a common length, is exactly the code space its predecessors take. |
| `HuffmanCodes.CanonicalFits` | tools/quantize_md_video.py:226-236 | Lengths that satisfy Kraft's inequality give codes that fit their lengths. |
| `HuffmanCodes.CanonicalPrefixFree` | tools/quantize_md_video.py:226-236 | No canonical code is a prefix of another. |
| `HuffmanCodes.Encode` | tools/quantize_md_video.py:239-258 | Emits exactly ceil(bits/8) bytes holding the concatenated codes padded with zeros, with the bit count; fails exactly on a byte without a code. |
| `HuffmanCodes.DecodeStream` | tools/quantize_md_video.py:239-258 | A prefix decoder recovers any input from its concatenated codes. |
| `HuffmanChunks.CountBytes` | tools/quantize_md_video.py:270-281 | The frequencies are the byte counts of all chunks together. |
| `HuffmanChunks.AlphabetIsPrefixCode` | tools/quantize_md_video.py:186-236 | Whatever the frequencies, the alphabet has fitting, prefix-free codes. |
| `HuffmanChunks.StreamBits` | tools/quantize_md_video.py:292-299 | The bits of an encoded chunk are its symbol counts times the lengths. |
| `HuffmanChunks.ChunkDecodes` | tools/quantize_md_video.py:292-299 | A table entry's bytes, cut to its bit count, decode to the chunk. |
| `HuffmanChunks.WriteChunks` | tools/quantize_md_video.py:283-308 | Every entry locates bytes that decode to its chunk, the bits recorded in total are the fewest any code could need, and writing stops at the first entry that overflows its fields. |
| `HuffmanChunks.FieldsFitIs` | tools/quantize_md_video.py:301-308 | An entry fits exactly when its offset takes four bytes and its two counts two bytes each. |
| `Adpcm.QuantizeIsDelta` | tools/ima_adpcm.py:72-109 | The signed change the encoder applies is the one its code means to the decoder. |
| `Adpcm.QuantizeIsGreatest` | tools/ima_adpcm.py:89-109 | The code is the greatest one whose parts do not exceed the difference. |
| `Adpcm.EncodeSamples` | tools/ima_adpcm.py:83-117 | Packs exactly the codes of the encoder's run, low nibble first, and returns its final state. |
| `Adpcm.DecodeSamples` | tools/ima_adpcm.py:120-140 | Decodes the first `count` nibbles; fails exactly when more are asked for than packed. |
| `Adpcm.Lockstep` | tools/ima_adpcm.py:83-140 | For all samples and states, decoding the codes gives the encoder's predictors and final state. |
| `Adpcm.UnpackPack` | tools/ima_adpcm.py:113-134 | Unpacking packed nibbles gives them back, odd counts included. |
| `Adpcm.EncoderSplit` | tools/ima_adpcm.py:205-207 | Encoding in two parts with the state carried is encoding the whole. |
| `Adpcm.EncodeChunk` | tools/ima_adpcm.py:143-155 | A chunk is the start state's checkpoint and the packed codes, of the promised size; fails exactly on odd or empty input. |
| `Adpcm.DecodeChunk` | tools/ima_adpcm.py:158-167 | Distinguishes every refusal, and otherwise decodes from the checkpoint. |
| `Adpcm.ChunkIsIndependent` | tools/ima_adpcm.py:143-167 | A chunk decoded alone gives the encoder's predictors and final state. |
| `Adpcm.EncodeDecodeChunks` | tools/ima_adpcm.py:187-215 | Each output chunk is its slice of one continuous decode; the state-mismatch error never fires. |
| `Adpcm.ContinuousDecode` | tools/ima_adpcm.py:143-167 | The payloads of two consecutive chunks, joined, decode as one stream to the first chunk's samples followed by the second's. |
| `Adpcm.SignMagnitude` | tools/ima_adpcm.py:218-227 | An RF5C164 byte is never 0xFF. |
| `Adpcm.LinearOfSignMagnitude` | tools/ima_adpcm.py:218-235 | Playback of an output byte gives back the sample's high byte, except that below -126 it stops there. |
| `AdpcmTracking.TracksInRange` | tools/ima_adpcm.py:89-112 | Within two steps of the sample, the next error is at most step/8 + 2 despite clamping. |
| `AdpcmTracking.TracksOverloaded` | tools/ima_adpcm.py:89-112 | Out of reach, the error falls by at least 7 without overshoot and the index takes its largest stride. |
| `AdpcmTracking.OverloadEnds` | tools/ima_adpcm.py:89-112 | On a constant input overload lasts at most 11 consecutive samples from any state. |
| `AdpcmTracking.InRangeStays` | tools/ima_adpcm.py:89-112 | Once a constant input is within two steps, it stays so. |
| `AdpcmTracking.OverloadIsInitial` | tools/ima_adpcm.py:89-112 | On a constant input overload is exactly the first n samples, for some n of at most 11, and never returns. |
| `AdpcmTracking.ElevenIsReached` | tools/ima_adpcm.py:89-112 | From the bottom rail at the smallest step, a jump to the top rail takes exactly those 11 samples. |
| `AdpcmTables.BuildTables` | tools/ima_adpcm.py:244-263 | The table image is the index rows, the delta rows and the output table, of the fixed size. |
| `AdpcmTables.SplitTables` | tools/ima_adpcm.py:266-278 | Splitting cuts an image of the right size into its three tables and refuses any other. |
| `AdpcmTables.SplitFull` | tools/ima_adpcm.py:244-278 | Splitting the built image gives back the three tables. |
| `AdpcmTables.TableLookups` | tools/ima_adpcm.py:252-258 | Big-endian reads at index*32 + 2*code give the clamped next index times 32 and the signed delta. |
| `AdpcmTables.LutLookup` | tools/ima_adpcm.py:238-241 | The output table at the offset high byte is the sign-magnitude of the full predictor. |
| `AdpcmTables.TableDecode` | tools/ima_adpcm.py:238-278 | A decoder that only adds, clamps and looks up produces the predictors and output bytes of the reference decoder. |
| `Checkerboard.GapSymmetric` | tools/palette_algorithms.py:392-407 | A seam costs the same seen from either tile. |
| `Checkerboard.SeamsFace` | tools/palette_algorithms.py:390-407 | A seam sums, over eight pixels and three channels, the squared differences between the last row or column of one tile and the first of the next. |
| `Checkerboard.HalfPassInPlace` | tools/palette_algorithms.py:387-408 | Updating same-parity tiles one by one in place gives what updating them all from the old plane gives, ties included. |
| `Checkerboard.CoherentAssignIdx` | tools/palette_algorithms.py:356-409 | The in-place loops compute `Assignment`. |
| `Checkerboard.OwnLineIsLeast` | tools/palette_algorithms.py:376-379 | A tile that chooses alone takes the line with the least error, the first of several. |
| `Checkerboard.WholeEnergies` | tools/gpu_quant.py:104-123 | The four shifted additions give every tile its local energy for every line. |
| `Checkerboard.CoherentAssignment` | tools/gpu_quant.py:82-126 | The whole-array passes compute the same passes. |
| `Checkerboard.AssignIdxOne` | tools/gpu_quant.py:129-152 | With a coherent shape, the same plane as the in-place form for every weight and line count. |
| `Checkerboard.EnergyByParity` | tools/palette_algorithms.py:387-408 | Tile errors plus each seam once equal the local energies of one parity plus the errors of the other. |
| `Checkerboard.HalfPassIsLeast` | tools/palette_algorithms.py:387-408 | A half-pass reaches the least total energy that any change of that parity can reach. |
| `Checkerboard.PassesDescend` | tools/palette_algorithms.py:387-408 | More passes never raise the energy. |
| `Checkerboard.StableIsLocalMinimum` | tools/palette_algorithms.py:387-408 | A plane both half-passes leave alone cannot be improved at any single tile. |
| `Checkerboard.AssignmentDescends` | tools/palette_algorithms.py:356-409 | The chosen plane costs no more than choosing every tile alone. |
| `BodySlots.BodyLength` | tools/pack_stream.py:1951-1985 | The file has the scheduled size exactly when every slot holds its sectors. |
| `BodySlots.WriteBody` | tools/pack_stream.py:1940-1985 | Succeeds exactly when every slot holds its sectors and the route covers every stream. |
| `BodySlots.CutsBack` | tools/pack_stream.py:1940-1985 | Cutting the written file along the route gives back the arm, the control stream, both refill streams and the payload after the prebuffer, each followed only by zeros. |
| `BodySlots.AcceptedIsExact` | tools/pack_stream.py:1009-1037 | The four area tests of a slot, each area cut at the slot's end, pass exactly for that slot's bytes cut to size when no source byte is cut off. |
| `BodySlots.ScanSlots` | tools/pack_stream.py:997-1048 | The scan passes exactly for files that start with the slots cut to size when no source byte is cut off, and then reports the useful bytes of every slot. |
| `BodySlots.VerifyBody` | tools/pack_stream.py:979-1066 | Accepts exactly that file with matching traces, covered refill streams and a control sector in frame 1. |
| `BodySlots.AcceptsWritten` | tools/pack_stream.py:979-1066 | For a route the writer takes, the file accepted is exactly the file written. |
| `BodySlots.UsefulTotals` | tools/pack_stream.py:1040-1045 | Useful bytes and padding add up to the slots, and the useful bytes to what the route takes of each stream. |
| `BodySlots.AcceptedInFull` | tools/pack_stream.py:979-1066 | An accepted file carries every stream in full exactly when its traces add up to the streams. |
| `FadeRuns.BlackRuns` | tools/fade_frames.py:324-338 | The runs are ordered, never touch, lie in the movie, and cover exactly the black frames. |
| `FadeRuns.DropOverlapping` | tools/fade_frames.py:473-486 | Keeps, in order, exactly the shots that share a frame with no other one, although the scan over the sorted list stops at the first later start. |
| `FadeDetector.DetectFadeShots` | tools/fade_frames.py:489-686 | With the image fits given: offers every gap between neighbouring runs to the whole fit and every unowned run side to a one-sided fit, drops ambiguous one-sided shots, sorts the rest; fails exactly on a non-positive frame minimum. |
| `FadeDetector.DetectedAre` | tools/fade_frames.py:548-686 | Whatever the fits say, every shot lies in a gap bounded by its own black runs, and no two shots share a frame. |
| `FadeDetector.RestoresBefore` | tools/fade_frames.py:607-684 | Of two detected shots that share no black run, the earlier one restores before the later one prepares. |
| `FadeDetector.DetectedDisjoint` | tools/fade_frames.py:113-125 | Main result: the connected groups of detected shots occupy disjoint frame ranges. |
| `FadeDetector.DetectAndLay` | tools/sim.py:1479-1485 | Detection and layout together fail exactly on a non-positive frame minimum, malformed segments, a non-positive capacity, or a movie that starts over capacity and that no single group brings within. |
| `FadeGroups.ConnectedGroups` | tools/fade_frames.py:113-125 | The loop over the sorted shots computes `Connected`. |
| `FadeGroups.ConnectedOrdered` | tools/fade_frames.py:113-125 | The groups hold the shots, each as often as detected, by start and then by end. |
| `FadeGroups.GroupsAre` | tools/fade_frames.py:113-125 | Grouping keeps every shot in order and joins exactly the neighbours that share a black run. |
| `FadeGroups.GroupsUnique` | tools/fade_frames.py:113-125 | Those properties determine the grouping. |
| `FadeSelection.SelectGroups` | tools/fade_frames.py:128-172 | Refuses exactly bad sizes and boundaries outside the movie; otherwise returns the groups chosen by benefit within capacity. |
| `FadeChoice.BenefitIsFaded` | tools/fade_frames.py:157-159 | The benefit groups are sorted by is the number of frames they fade. |
| `FadeChoice.ChosenIff` | tools/fade_frames.py:163-171 | Main result: for groups in disjoint frame ranges, which detected shots always have, a group is chosen if and only if it fits beside the chosen groups that fade more frames, or as many from an earlier start. |
| `FadeChoice.LeftOutDoesNotFit` | tools/fade_frames.py:163-171 | A group is never left out for one that fades fewer frames. |
| `FadeSelection.SelectionFormed` | tools/fade_frames.py:163-172 | For groups in disjoint frame ranges, which detected shots always have: whatever the order of choice, the boundaries are the chosen groups' events and the old boundaries outside them. |
| `FadeSelection.Regrouped` | tools/fade_frames.py:249-283 | For groups in disjoint frame ranges, which detected shots always have: the selected shots regroup into exactly the chosen groups. |
| `FadeSelection.RebuildAgrees` | tools/fade_frames.py:268-289 | For groups in disjoint frame ranges, the rebuilt layout has exactly the boundaries the selection counted. |
| `FadeSelection.NothingChosen` | tools/fade_frames.py:163-171 | No group is selected if and only if none fits beside the old boundaries alone. |
| `FadeSelection.CapacityCheck` | tools/fade_frames.py:302-303 | For groups in disjoint frame ranges, which detected shots always have: the closing capacity check fails exactly when the movie starts over capacity and no single group brings it within. |
| `FadeSelection.OverlapBreaks` | tools/fade_frames.py:268-303 | Why disjoint ranges are needed: two valid shots made by hand, of a kind the detector never makes, have overlapping ranges and are both selected within capacity, yet the rebuilt layout exceeds it. |
| `FadeLayout.BuildEvents` | tools/fade_frames.py:268-289 | The event table has exactly the rebuilt boundaries, each with the palette it shows. |
| `FadeLayout.FillSegments` | tools/fade_frames.py:291-301 | Each event claims exactly the frames up to the next one. |
| `FadeLayout.BuildLayout` | tools/fade_frames.py:249-303 | Fails exactly on malformed segments, a non-positive capacity or too many boundaries; otherwise the tables follow the boundaries. |
| `FadeLayout.ForwardIs` | tools/fade_frames.py:257-263 | The segments accepted are those that never go back and start at zero. |
| `FadeLayout.BoundariesAreFirsts` | tools/fade_frames.py:261-267 | The old boundaries are the frames on which a segment appears for the first time. |
| `FadeLayout.OneBoundaryEach` | tools/fade_frames.py:261-267 | There is one old boundary for each palette segment that occurs, so without fades what is held to the capacity is the number of segments in use. |
| `FadeLayout.SegmentsRise` | tools/fade_frames.py:291-301 | Segment ids start at 0 and rise by one exactly at the events. |
| `FadeLayout.SegmentStarts` | tools/fade_frames.py:291-301 | A frame's segment begins at the last event up to that frame. |
| `FadePalette.InsideShowsReference` | tools/fade_frames.py:268-301 | For groups in disjoint frame ranges, which detected shots always have: from a shot's anchor to the next anchor or the restoration, its own reference palette is in force. |
| `FadePalette.ShotPalette` | tools/fade_frames.py:289-301 | On the black run that leads into a selected shot and on its fade, its reference palette is in force, dark if the shot fades in and at full scale otherwise. |
| `FadePalette.BesideGroups` | tools/fade_frames.py:281-288 | Before, between and after the selected groups, counted from the black run that leads in to the one that leads out, the movie keeps its own palette. |
| `FadePalette.OutsideKeepsPalette` | tools/fade_frames.py:268-301 | For groups in disjoint frame ranges, which detected shots always have: outside every selected group the movie's own palette is in force at full scale. |
| `FadePalette.LayoutFits` | tools/fade_frames.py:302-303 | For groups in disjoint frame ranges, which detected shots always have: the layout exceeds capacity exactly when the movie starts over capacity and no single group brings it within. |
| `FadePalette.UnfadedOverflow` | tools/fade_frames.py:302-303 | A movie of two palette segments without fades, laid into one segment, reaches the capacity error. |
| `FadeOverlay.OverlayShotTargets` | tools/fade_frames.py:197-246 | The three arrays are those of painting every shot and then claiming preparation frames back; preparation lists exactly the frames that lead into a shot, and deadlines the last of each. |
| `FadeOverlay.PhaseNeedsScale` | tools/fade_frames.py:197-246 | A frame has a phase exactly when it has a desired scale, for any list of shots in any order. |
| `FadeOverlay.FadeFrameShows` | tools/fade_frames.py:219-232 | A fade frame that no shot prepares on and no other shot paints has its own shot's scale, and its phase: with a fade in and a fade out, 1 up to the peak and 2 after it; with a fade in alone 1; otherwise 2. |
| `FadeOverlay.BlackFrameShows` | tools/fade_frames.py:227-232 | The black frames a shot fades out to are at scale 0 in phase 2, unless claimed for preparation. |
| `FadeOverlay.ReferenceHolds` | tools/fade_frames.py:218-241 | From the black run before a shot to the one after it, its reference is in force wherever no other shot spans the frame. |
| `FadeOverlay.PreparationWins` | tools/fade_frames.py:233-241 | A frame that leads into shots shows the reference of the last of them, without a scale or phase. |
| `Tokens.StepKeeps` | tools/resource_tokens.py:108-233 | Every step of any process keeps each slot locked by exactly the claim that has it open. |
| `Tokens.RunKeeps` | tools/resource_tokens.py:212-233 | So does every interleaving from an idle resource. |
| `Tokens.LeasesAreExact` | tools/resource_tokens.py:212-233 | Leases are disjoint sets of exactly the requested size; a sleeping or refused claim has nothing locked. |
| `Tokens.WithinCapacity` | tools/resource_tokens.py:212-233 | All claims together never have more slots open than there are. |
| `Tokens.OneStemOwner` | tools/resource_tokens.py:258-271 | A stem has at most one owner that is not re-entrant. |
| `Tokens.NothingLeaks` | tools/resource_tokens.py:183-191 | Once all claims have ended or their processes have exited, every slot is free. |
| `TokenLeases.Directory.Acquire` | tools/resource_tokens.py:194-233 | Alone and without waiting: leases the first `count` free slots if there are that many, else changes nothing. |
| `TokenLeases.TokenLease.Release` | tools/resource_tokens.py:183-185 | Closes exactly the lease's slots and empties it, so a second release does nothing. |
| `TokenLeases.ReleaseRestores` | tools/resource_tokens.py:183-233 | Releasing what an acquisition locked restores the table. |
| `TokenLeases.AcquireStem` | tools/resource_tokens.py:258-271 | Succeeds exactly when the stem is already held by the process or free; a re-entrant lease locks nothing. |
| `TokenLeases.SoloScan` | tools/resource_tokens.py:212-224 | Among the interleaved steps, a scan nobody interrupts leases what `Acquire` leases. |
| `TokenLeases.BothRefused` | tools/resource_tokens.py:212-230 | Two interleaved calls can refuse each other on an otherwise idle resource. |
| `TokenScans.ConfinedScanLeases` | tools/resource_tokens.py:212-224 | If rivals' locks during a scan stay inside a set of slots that leaves `count` others, the scan ends with its lease, whatever the interleaving. |
| `TokenScans.RefusableIff` | tools/resource_tokens.py:212-230 | From an idle resource a scan can end empty-handed if and only if the slots its rivals may lock leave fewer than `count` others. |

## Left out

- HuffmanCodes.Encode: is stated for codes that fit their lengths, which `AlphabetIsPrefixCode` proves of every alphabet the program builds; other code tables are not modelled.
- PackedMovie.PackAndReplay: takes the arrival schedule, slots and boot counts as inputs, prefetches in slot order, frame 0's prefetches as all cold and its sidecar slots as distinct from its inline ones; patterns are opaque values, so the 32-byte length checks are by typing.
- Movie.DecodeVerify: models the pattern replay; name-table updates, scrolling, CRAM and image comparison inside the same loop are not part of this model.
- SupplyPlan.PlanSupply: models sources frozen by the simulation, with a dictionary; the fallback that ranks runs for older logs is left out.
- JointPlan.BuildJointPlan: the pass `build_plan` is an abstract function from ceilings to a plan or a schedule error, because it rests on the schedule oracle and a floating-point bisection.
- SectorPlanner.SharedSectorPlanner.BeginFrame: the ring's schedule oracle is an abstract test; a frame past the last one is refused, where the source would index out of range.
- SectorPlanner.VerifyPrefix: the cadence is a given list of per-frame sector counts; how `rate_deltas` derives it from fps is left out.
- Checkerboard.HalfPassIsLeast: energies are exact reals; floating-point rounding of the sums is not modelled.
- WaterFill.AllocateCredits: the binary heap is an ordered list with the same pops, here and in `MergeQueue`; the array layout of heapq is not modelled.
- WaterFill.CountOnlyBudget: covers the path without cold keys or a Prg supply trace; `estimate_prg_pressure_start` and `select_dic_dictionary` are left out as easy.
- BodySlots.WriteBody: the route satisfies word <= payload, which the routing encoder enforces; a combined slot count above the schedule is a refusal.
- FadeDetector.DetectFadeShots: takes the mask of black frames and the image fits as given; a fit may say anything within its interval. The checks on probe shapes and the fitting arithmetic are left out.
- FadeLayout.BuildLayout: shots lie inside the movie, as every detected shot does.
- FadeOverlay.OverlayShotTargets: NaN is None, and scales are reals.
- Tokens.LeasesAreExact: all callers share one capacity; `_ensure_capacity` and the capacity file are left out, as are paths and hashing of names.
- TokenLeases.SoloScan: time-outs and the poll interval are the free choice between sleeping, waking and refusing.
- TokenLeases.AcquireStem: states the call without waiting; a waiting call is the interleaved claim of `Tokens`, which sleeps and scans again until it has its lease or times out.
- Tokens.OneStemOwner: re-entrant leases hold nothing, so the lifetime of a child that inherited the environment is not tied to the owner.
- The planner's ring-capacity path beyond its binary search, whose oracle is not part of this model.
- `refine_one_line_palette` and the deep-black rules, which choose palettes rather than assign them.
- Audio retiming, k-means palettes, dithering and other signal work.
- Rendering, drivers, release scripts and the player's assembly, none of which is part of this model.
