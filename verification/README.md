# Stasis native runtime: a verified model

The Stasis language ships a native runtime in C: an audio ring, a sprite atlas, a renderer that
replays a painter-ordered command stream, asset loading tasks, handle tables, cached text, a JSON
library, a PNG writer and some exact display arithmetic. This project models that code in Dafny and
proves what it keeps, over every input, every call sequence or every interleaving.

`dafny verify dfyconfig.toml` checks all of it.

## How it is laid out

| files | part of the runtime |
|---|---|
| `AudioRing.dfy`, `AudioRingBuffer.dfy` | the lock-free audio ring: a step machine of one producer, one consumer, one controller and an observer, and the ring as code whose every atomic operation and copied frame is one of those steps |
| `PairHistory.dfy` | the open-addressing table of adjacent-draw pairs, aged lazily |
| `AtlasPage.dfy` | one atlas page: shelf cursor, free list, merging and splitting |
| `OccupancyBitmap.dfy`, `AtlasPlan.dfy`, `AtlasStaging.dfy` | two-phase re-layout: the bitmap overlap test, what a commit makes of an atlas, and the stage and commit calls |
| `Replay.dfy`, `ReplayOrders.dfy` | ordered command replay: lines, rectangles, sprite runs, text and clips lowered to bounded batches; the program a frame encodes and its painter |
| `AssetTasks.dfy`, `AssetLedger.dfy` | the asset worker interleaved with its caller; what decoders and publishers answered, and that the table shows it |
| `Handles.dfy`, `TextRuns.dfy`, `TextCache.dfy` | generational handles; deduplicated and replaceable text runs, their compaction and their handles |
| `JsonText.dfy`, `JsonGrammar.dfy`, `JsonStrings.dfy`, `JsonLiterals.dfy`, `JsonLists.dfy` | JSON printing and parsing, the texts that spell a tree, string escaping and decoding, which string literals are accepted, doubly linked child lists |
| `Crc.dfy`, `PngWriter.dfy`, `PngFile.dfy` | CRC-32, Adler-32, stored DEFLATE blocks, chunks and whole PNG files |
| `DisplayScale.dfy`, `QuadPlanner.dfy`, `AssetPath.dfy` | exact rational scales, the quad planner, the path normaliser |
| `Basics.dfy` | options, byte buffers, Euclidean division, C ints |

Code that changes arrays and fields in place is a class or a method with loops, proved against
functions over values. Concurrency is a step machine: a run is any sequence of the threads' steps.

## What the hardest results say

- **Audio.** In every interleaving, a consume that returns has delivered exactly the next frames of
  the published log, even when a stop, a restart or a push overlapped its copy; every published frame
  is delivered once, discarded by a stop, or still queued. What a query, a push and a consume answer is
  stated exactly in terms of the frames published and consumed when their two loads took effect.
- **Replay.** For every valid frame, what the batches draw, flattened, is the painter-order list,
  each primitive under the intersection of its clips, exactly when no more than 10000 lines are
  queued in a row and no mirrored rectangle goes out in a batch. Valid frames can break either
  condition, and concrete ones are given. The list is the one a painter makes of the program the frame
  encodes, read off the entries apart from the renderer, and a valid frame encodes exactly one. No batch
  could have gone out with the one before it, unless an invisible sprite lies on another page.
- **Re-layout.** Staging accepts exactly the sound plans (the bitmap test is geometric
  disjointness), committing is all or nothing, and afterwards every resident sprite is resident and
  every moved one is on a sheet of its own group. A rebuilt sheet's live count is its number of
  residents exactly when no sprite outside the plan already carries its texture and place; then its
  residents are also disjoint.
- **Page allocator.** Over any sequence of reserves and releases, live and free rectangles stay
  disjoint, and they tile what the shelf handed out if and only if no free rectangle was dropped since
  the page was last empty. Exactly which call drops one is stated on the list it finds. A reservation
  lies inside the page exactly when `1 + padded width <= page width`, which the eligibility guard does
  not establish; a concrete overflow is given. The place a reservation gets follows from the free list
  and from the rectangles handed out so far, so a page of rectangles of one size holds exactly columns
  times rows of them, and room given back can be reserved again without more of the shelf.
- **Asset tasks.** A step takes the worker's slot away exactly when it cancels a task that is already
  cancelled; every run without such a step is safe. In such a run the table shows exactly what was
  answered: a task is decoded, failed or loaded if and only if its decoder or its publisher said so, with
  the payload or the handle made for it, whatever the other thread does in between.
- **JSON.** A text parses to a tree if and only if it begins with bytes that spell the tree, a relation
  of its own, and the tree is nested at most 1000 deep. Every text of RFC 8259 over the values modelled is
  among them, and so is every printed tree, formatted or not, so printing and parsing returns it. Decoding a string literal stays inside the buffer sized by a first pass that can fall
  out of step with it, and where the accepted literals differ from RFC 8259 is stated exactly.
- **PNG.** The checksums meet their published check values. Exactly when a call leaves what C defines (an index that overflows int, a block count that
  wraps size_t), and that any file written decodes to the captured pixels exactly when its stream is
  below the 2^31 bytes a chunk may have. Each failing case has a concrete picture.
- **Text and handles.** Runs are deduplicated, compaction moves every surviving text unchanged, and no
  handle is ever issued for two lifetimes; a slot serves one lifetime per generation and then no more.
- **Paths.** Dots, dot-dots and separators obey the laws of a path, and exactly which paths are refused is
  stated on the path itself.
- **Planner.** The page changes are the fewest possible exactly when there is no sprite, one is within
  reach of the look-ahead, or the first sprite is on the fallback page.

## Assumptions

- The audio ring's memory is sequentially consistent, fewer than 2^63 frames are ever published, and
  `initialize` and `reset` do not overlap other calls.
- The atlas snapshot token identifies the atlas exactly. Residency is stated for table entries.
- A frame's command stream passes validation, and the page of a sprite does not change within a frame.
- Clip rectangles are over the reals, before rounding to whole pixels, and so are rectangle extents, so
  no extent is NaN.
- Texture creation, uploads, file reads and memory allocation are flags given to each call; the buffers
  of the JSON strings are taken to be allocated.
- Where live counts are equated with residents, a texture the host makes for a plan is carried by no
  sprite yet.
- The hash functions of the pair table and the text cache are arbitrary.

## Where the code and its comments differ

- `stasis_gfx_load_sprite` is described as returning a handle that is stable for the life of the process
  (`runtime/stasis_graphics.c:7722-7726`). The code ends the handle on its last release, and the model
  follows the code.

## Model

| member | source | states |
|---|---|---|
| AudioRing.StepKeepsInv | runtime/stasis_audio_ring.c:38-153 | one step of any thread, in any state of the others, keeps the ring's invariant |
| AudioRing.RunKeepsInv | runtime/stasis_audio_ring.c:38-153 | every interleaving keeps it |
| AudioRing.SlotIsModular | runtime/stasis_audio_ring.c:93-100 | the two-part copy of a push or a consume touches slot `counter % capacity` for each frame |
| AudioRing.WindowSlotsDiffer | runtime/stasis_audio_ring.c:88-100 | counters less than a capacity apart never share a slot |
| AudioRing.PushCopyKeepsInv | runtime/stasis_audio_ring.c:95-100 | copying one frame before publication disturbs no queued frame and no consume in progress |
| AudioRing.ConsumeDeliversPublishedFrames | runtime/stasis_audio_ring.c:109-153 | a finished consume holds frames [read, read + consumed) of the published log and silence after; a lost swap gives silence and 0 |
| AudioRing.PushPublishesPrefix | runtime/stasis_audio_ring.c:68-107 | a push that returns n appended exactly the first n input frames; one that returns 0 published nothing |
| AudioRing.FramesAreConserved | runtime/stasis_audio_ring.c:38-153 | read <= write <= read + capacity, and each published frame is delivered once in order, discarded, or still in its slot |
| AudioRing.RunIsMonotone | runtime/stasis_audio_ring.c:38-153 | both counters only grow and the log, the fates and the delivered frames are only extended |
| AudioRing.QueryNeverUnderReports | runtime/stasis_audio_ring.c:51-61 | the queue-length query is at most the capacity and at least what was queued throughout; AudioRing.QueryAnswers gives the exact answer |
| AudioRing.QueryAnswers | runtime/stasis_audio_ring.c:51-61 | the query answers the frames published at its second load beyond those consumed or discarded at its first, at most the capacity, whatever runs in between; exactly when that is the queue length of the moment |
| AudioRing.PushRefused | runtime/stasis_audio_ring.c:68-80 | a push of nothing or to a ring that does not accept returns 0 at once, and any other goes on |
| AudioRing.PushAnswers | runtime/stasis_audio_ring.c:68-107 | a push returns as many frames as it has and as were free when it loaded the read counter, or 0 exactly when the write word changed under it |
| AudioRing.ConsumeAnswers | runtime/stasis_audio_ring.c:109-153 | a consume returns as many frames as asked for and as were queued when it loaded the write counter, or 0 exactly when a stop came between, and is short exactly when it returns fewer without one |
| AudioRingBuffer.Ring.constructor | runtime/stasis_audio_ring.c:13-29 | an initialised ring is empty and not accepting |
| AudioRingBuffer.Ring.Queued | runtime/stasis_audio_ring.c:51-61 | alone, the query returns the length of the queue and changes nothing |
| AudioRingBuffer.Ring.Push | runtime/stasis_audio_ring.c:68-107 | uninterrupted, it appends as many frames as fit while accepting and returns that count |
| AudioRingBuffer.Ring.ReserveRoom | runtime/stasis_audio_ring.c:84-91 | the accepted count from the two loads |
| AudioRingBuffer.Ring.CopyIn | runtime/stasis_audio_ring.c:92-100 | the copy moves the machine one frame at a time |
| AudioRingBuffer.Ring.FindQueued | runtime/stasis_audio_ring.c:120-127 | the consumable count from the two loads |
| AudioRingBuffer.Ring.CopyOut | runtime/stasis_audio_ring.c:128-138 | the copy out, one frame a step |
| AudioRingBuffer.Ring.Advance | runtime/stasis_audio_ring.c:139-143 | the swap claims exactly the copied frames of the log |
| AudioRingBuffer.Ring.FillSilence | runtime/stasis_audio_ring.c:144-151 | silence to the end, and one underrun if still accepting |
| AudioRingBuffer.Ring.Consume | runtime/stasis_audio_ring.c:109-153 | uninterrupted, it removes a prefix of the queue, returns it padded with silence and counts an underrun when short |
| AudioRingBuffer.Ring.SetAccepting | runtime/stasis_audio_ring.c:38-49 | starting keeps the queue, stopping empties it, neither moves the write counter |
| PairHistory.EffectiveWeight | runtime/stasis_graphics.c:5742-5757 | the weight is the stored observations of the last 64 frames |
| PairHistory.ClearExpired | runtime/stasis_graphics.c:5759-5777 | clearing frame by frame keeps exactly the counts still in the window |
| PairHistory.AgeEntry | runtime/stasis_graphics.c:5759-5777 | ageing an entry late equals ageing it every frame |
| PairHistory.NextFrameAged | runtime/stasis_graphics.c:5759-5777 | one eager ageing step |
| PairHistory.LowBitsZero | runtime/stasis_graphics.c:5893-5900 | the overflow bits are zero exactly when the newest frames dropped nothing |
| PairHistory.MissedMeansAbsent | runtime/stasis_graphics.c:5798-5817 | a probe that meets an empty slot proves the pair is nowhere in the table |
| PairHistory.PutKeepsTable | runtime/stasis_graphics.c:5823-5831 | taking a free or expired slot keeps keys unique and probe chains unbroken |
| PairHistory.AgedKeepsExact | runtime/stasis_graphics.c:5759-5777 | ageing an entry in place changes no reported count |
| PairHistory.FreshKeepsExact | runtime/stasis_graphics.c:5824-5828 | reusing an expired slot loses no count in the window |
| PairHistory.BumpKeepsExact | runtime/stasis_graphics.c:5832-5839 | one more observation is stored exactly, or noted as dropped when saturated |
| PairHistory.DropKeepsExact | runtime/stasis_graphics.c:5819-5836 | a dropped observation is remembered in the overflow window |
| PairHistory.FrameKeepsExact | runtime/stasis_graphics.c:5886-5900 | a new frame shifts the window |
| PairHistory.CleanWindowIsExact | runtime/stasis_graphics.c:5742-5840 | with no drop in the window every pair's report is its naive count over the last 64 frames |
| PairHistory.NeverOverReports | runtime/stasis_graphics.c:5742-5840 | drops or not, no pair is reported more often than it was observed |
| PairHistory.History.constructor | runtime/stasis_graphics.c:5732-5740 | an empty history is exact |
| PairHistory.History.Reset | runtime/stasis_graphics.c:5732-5740 | reset forgets everything |
| PairHistory.History.BeginFrame | runtime/stasis_graphics.c:5886-5900 | a frame begins with nothing seen and nothing dropped, and the overflow window shifts |
| PairHistory.History.FindSlot | runtime/stasis_graphics.c:5796-5818 | the probe returns the pair's slot, else the first reusable one, else nothing |
| PairHistory.History.Locate | runtime/stasis_graphics.c:5818-5831 | the pair's entry, aged, or a fresh one in its place |
| PairHistory.History.NoteDrop | runtime/stasis_graphics.c:5819-5836 | the current frame is marked as having dropped |
| PairHistory.History.Observe | runtime/stasis_graphics.c:5790-5840 | after any sequence of observations the table is exact for the frames seen |
| PairHistory.History.Report | runtime/stasis_graphics.c:5742-5757 | while the overflow window is clear, the report is the naive count; the window is clear exactly when the last 64 frames dropped nothing |
| AtlasPage.DisjointMeansNoCommonPixel | runtime/stasis_graphics.c:6387-6526 | the four comparisons mean no common pixel |
| AtlasPage.Repartition | runtime/stasis_graphics.c:6387-6526 | exchanging rectangles for others covering the same region keeps the layout |
| AtlasPage.MergeKeepsLayout | runtime/stasis_graphics.c:6391-6417 | merging two free neighbours keeps the layout |
| AtlasPage.CutIsWhole | runtime/stasis_graphics.c:6496-6503 | corner, right and bottom pieces tile the rectangle they were cut from |
| AtlasPage.SplitKeepsLayout | runtime/stasis_graphics.c:6495-6508 | using a corner of a free rectangle keeps the layout |
| AtlasPage.ShelfInsideIff | runtime/stasis_graphics.c:6509-6526 | a shelf rectangle is in the page exactly when 1 + width <= page width |
| AtlasPage.ShelfKeepsLayout | runtime/stasis_graphics.c:6509-6526 | a shelf allocation keeps the layout |
| AtlasPage.ShelfIsNext | runtime/stasis_graphics.c:6509-6526 | the shelf place follows from the rectangles handed out: (1, 6) at first, then right of the last row's rightmost one while it fits there, else at the start of a row just below the tallest |
| AtlasPage.FillShelf | runtime/stasis_graphics.c:6478-6526 | an empty page takes w by h sprites until exactly (width - 1) / (w + 2) columns times (height - 6) / (h + 2) rows are placed |
| AtlasPage.Reuse | runtime/stasis_graphics.c:6436-6526 | on an ordinary page with a place left on its free list, releasing a rectangle and reserving its size succeeds without more of the shelf |
| AtlasPage.SoundLayoutTiles | runtime/stasis_graphics.c:6387-6526 | live and free rectangles are pairwise disjoint, inside the page, below the header, within what was handed out, and cover all of it if and only if the layout is exact |
| AtlasPage.EligibleGuardIsSafeIff | runtime/stasis_graphics.c:6583-6595 | the eligibility guard keeps the first shelf rectangle in the page exactly when width + 2 < page size |
| AtlasPage.EligibleGuardOverflows | runtime/stasis_graphics.c:6583-6595 | a 2046-wide sprite passes the guard on a 2048 page and leaves it |
| AtlasPage.Page.constructor | runtime/stasis_graphics.c:6309-6340 | a new page is empty below its header |
| AtlasPage.Page.FindNeighbour | runtime/stasis_graphics.c:6393-6415 | a free rectangle that merges with the given one, if any |
| AtlasPage.Page.Smallest | runtime/stasis_graphics.c:6419-6427 | the first free rectangle of least area |
| AtlasPage.Page.Coalesce | runtime/stasis_graphics.c:6391-6417 | merging repeats until nothing merges, shortens the list exactly when the rectangle has a neighbour, and what lay in one entry or in the rectangle lies in one entry or in the result |
| AtlasPage.Page.AddFreeRect | runtime/stasis_graphics.c:6387-6434 | the rectangle comes back and lies in one entry, as does all that did before; one is dropped exactly when 256 are listed and none is its neighbour: the smallest of them and it, and that is when the tiling gets a hole |
| AtlasPage.Page.BestFit | runtime/stasis_graphics.c:6484-6494 | the first free rectangle of least area that is large enough, or none when none is |
| AtlasPage.Page.TakeCorner | runtime/stasis_graphics.c:6495-6504 | the used rectangle leaves the list and its corner becomes live |
| AtlasPage.Page.Split | runtime/stasis_graphics.c:6495-6504 | the corner becomes live and nothing else changes hands; the strip right of it, as high as it, and the strip below, as wide as the whole, stay free, each in one entry; the tiling gets a hole exactly when the list is full and both come back without finding a neighbour |
| AtlasPage.Page.ReserveFree | runtime/stasis_graphics.c:6495-6508 | the new rectangle is the upper left corner of the one it was cut from, apart from everything live, and both strips stay free; nothing new is handed out, and the tiling gets a hole under the same condition |
| AtlasPage.Page.ReserveShelf | runtime/stasis_graphics.c:6509-6526 | the shelf rectangle is the next place by AtlasPage.ShelfIsNext, refused exactly when it ends below the page, and is the one thing newly handed out |
| AtlasPage.Page.Reserve | runtime/stasis_graphics.c:6478-6526 | a reservation lies in the corner of the first best fit, or else at the next place of the shelf, is apart from all live rectangles, inside the page exactly when it is narrow enough, newly handed out exactly when no free rectangle fits, refused exactly when neither has room, and drops a rectangle exactly when it crowds the list |
| AtlasPage.Page.Release | runtime/stasis_graphics.c:6436-6476 | exactly the released rectangle stops being live; an emptied page starts over, an ordinary one has the rectangle in one free entry, and a sealed or planned one keeps list and cursors; one is dropped exactly when the list is full and it has no neighbour there |
| AtlasPage.Page.Return | runtime/stasis_graphics.c:6474 | the rectangle stops being live and lies in one free entry, nothing is newly handed out, and one is dropped exactly when the list is full and it has no neighbour there |
| AtlasPage.Exercise | runtime/stasis_graphics.c:6387-6526 | over any sequence of reserves narrow enough for the page and releases, the caller holds exactly the live rectangles, and live and free ones cover exactly what was handed out if and only if no rectangle was dropped since the page was last empty |
| AtlasPage.AreasFit | runtime/stasis_graphics.c:6485-6489 | on a page whose own area is a C int, every rectangle area is below INT_MAX |
| OccupancyBitmap.SetBit | runtime/stasis_graphics.c:6968-6972 | setting one pixel's bit in the packed bytes changes no other pixel |
| OccupancyBitmap.ClearMeansUncovered | runtime/stasis_graphics.c:6959-6976 | geometric disjointness from a list is having no covered pixel |
| OccupancyBitmap.MarkStep | runtime/stasis_graphics.c:6966-6973 | one pixel of the marking loops |
| OccupancyBitmap.MarkOccupied | runtime/stasis_graphics.c:6959-6976 | succeeds exactly when the rectangle is in the page and disjoint from all marked before, and then is marked |
| AtlasPlan.CommitKeepsResidents | runtime/stasis_graphics.c:7336-7397 | every resident table sprite is still resident |
| AtlasPlan.MovedToOwnGroup | runtime/stasis_graphics.c:7370-7386 | a moved sprite is on a live sheet of its group at its planned place, padded by one texel all round, inside and below the header, and nothing else of it changes |
| AtlasPlan.MovedApart | runtime/stasis_graphics.c:7370-7386 | sprites moved to one sheet have disjoint padded rectangles |
| AtlasPlan.RebuiltResidentsIff | runtime/stasis_graphics.c:7336-7397 | a rebuilt sheet holds exactly the sprites planned for it if and only if no other sprite already claims its place and texture |
| AtlasPlan.LiveCountsResidentsIff | runtime/stasis_graphics.c:7295-7304 | its live count is the number of residents under the same condition, and only then |
| AtlasPlan.RebuiltSheetIsDisjoint | runtime/stasis_graphics.c:7257-7268 | residents of a rebuilt sheet that adopts no other sprite are pairwise disjoint |
| AtlasPlan.CommitIsSound | runtime/stasis_graphics.c:7336-7397 | a commit keeps every resident, and with fresh textures every rebuilt sheet has the right live count and disjoint residents |
| AtlasPlan.TrimmedIs | runtime/stasis_graphics.c:6380-6385 | the trailing sheets without a texture go, all of them and no other |
| AtlasPlan.CommittedSheets | runtime/stasis_graphics.c:7357-7397 | sheet by sheet: the one built for a page, none where sprites only left, every other as it was |
| AtlasPlan.CommittedUnmoved | runtime/stasis_graphics.c:7370-7386 | a sprite outside the plan is unchanged |
| AtlasPlan.ProtectedIsKept | runtime/stasis_graphics.c:6681-6717 | a sealed, dedicated, ungrouped or fallback sheet, or one with a sprite not ready to move, survives any commit with its sprites as they were |
| AtlasPlan.UnselectedSheetIsKept | runtime/stasis_graphics.c:7357-7369 | sheets outside the plan are untouched |
| AtlasPlan.FallbackSheetIsKept | runtime/stasis_graphics.c:6694-6699 | the fallback sprite's sheet is never selected, so it survives |
| AtlasStaging.SheetEligible | runtime/stasis_graphics.c:6681-6717 | whether planning may touch a sheet |
| AtlasStaging.CheckPages | runtime/stasis_graphics.c:7159-7187 | passes exactly for sound plan pages with distinct sources |
| AtlasStaging.CheckPlacements | runtime/stasis_graphics.c:7189-7222 | passes exactly for sound placements of distinct sprites, and records what they select, see and use |
| AtlasStaging.CheckClosed | runtime/stasis_graphics.c:7224-7236 | passes exactly when every resident of every selected sheet is placed |
| AtlasStaging.CheckApart | runtime/stasis_graphics.c:7238-7268 | passes exactly when the used pages hold the reserved squares and no two placements on a page overlap |
| AtlasStaging.NewBitmaps | runtime/stasis_graphics.c:7238-7251 | one bitmap per used page, refused exactly when the reserved squares do not fit |
| AtlasStaging.MarkPlacements | runtime/stasis_graphics.c:7258-7268 | marking all placements succeeds exactly when none overlap |
| AtlasStaging.CheckPlan | runtime/stasis_graphics.c:7130-7268 | all checks together pass exactly for a sound plan |
| AtlasStaging.UploadAll | runtime/stasis_graphics.c:7295-7312 | the live count of each new sheet is its number of placements, and its texture the one made for it |
| AtlasStaging.Planner.Stage | runtime/stasis_graphics.c:7130-7321 | stages exactly the sound plans of 1 to 256 pages and at most 65536 placements for the current atlas, each page with the texture the host made for it, and touches neither sheets nor sprites |
| AtlasStaging.Planner.Commit | runtime/stasis_graphics.c:7336-7397 | happens exactly when the atlas is the one staged for; then residents stay, and with fresh textures the rebuilt sheets are sound; otherwise nothing changes |
| AtlasStaging.Planner.SwapSheets | runtime/stasis_graphics.c:7357-7369 | selected sheets are replaced by the staged ones or retired |
| AtlasStaging.Planner.MoveSprites | runtime/stasis_graphics.c:7370-7386 | every placed sprite moves and no other changes |
| Replay.ResolvedIsIntersection | runtime/stasis_graphics.c:5169-5209 | the clip in force is the canvas intersected with every active clip |
| Replay.SentJoins | runtime/stasis_graphics.c:5519-5568 | what a prefix and the rest send is what all send |
| Replay.SentIsPaintedIff | runtime/stasis_graphics.c:6057-6072 | the lowered commands paint the painter-order list exactly when no mirrored rectangle (a negative extent, none zero) goes out in a batch |
| Replay.ValidFrameMayMirror | runtime/stasis_graphics.c:6057-6072 | a valid frame with one such rectangle |
| Replay.NoLinesBetween | runtime/stasis_graphics.c:6115-6191 | a span of rectangles and runs queues no line and changes no clip |
| Replay.ValidFrameMayLoseLines | runtime/stasis_graphics.c:5084-5107 | a valid frame of 10001 lines in a row overflows the line queue |
| Replay.Renderer.FlushLines | runtime/stasis_graphics.c:5255-5273 | the queued lines are drawn in order under the clip in force |
| Replay.Renderer.QueueLine | runtime/stasis_graphics.c:5084-5107 | a line is queued unless 10000 already are |
| Replay.Renderer.RestoreClip | runtime/stasis_graphics.c:5238-5253 | the renderer's clip is the resolved top of the stack |
| Replay.Renderer.PushClip | runtime/stasis_graphics.c:5201-5209 | the stack and the clip in force gain the pushed clip |
| Replay.Renderer.PopClip | runtime/stasis_graphics.c:5211-5219 | both lose it |
| Replay.Renderer.Submit | runtime/stasis_graphics.c:6182-6189 | a batch of at most 2048 quads is drawn with one page |
| Replay.Renderer.DrawSprite | runtime/stasis_graphics.c:6157-6169 | a sprite joins a batch of its own page, in order |
| Replay.Renderer.DrawRun | runtime/stasis_graphics.c:6156-6170 | all sprites of a run, in order |
| Replay.Renderer.DrawClippedRun | runtime/stasis_graphics.c:6147-6179 | a run with its own clip is drawn under it, and the ordered clip restored |
| Replay.Renderer.LookaheadPage | runtime/stasis_graphics.c:6035-6055 | the page of the first non-empty run within a batch, else the fallback's |
| Replay.Renderer.DrawRect | runtime/stasis_graphics.c:6130-6137 | a rectangle goes into the batch, or is filled at once when both extents are positive and skipped otherwise |
| Replay.Renderer.DrawMixed | runtime/stasis_graphics.c:6125-6185 | one command adds exactly its draws, and the open batch may still go out as one; what the command is comes from ReplayOrders.RestIsPainted |
| Replay.Renderer.DrawSpan | runtime/stasis_graphics.c:6115-6191 | a span of rectangles and runs paints what its commands send, in order |
| Replay.Renderer.StepLine | runtime/stasis_graphics.c:5541-5548 | a line command keeps what is drawn and queued equal to the painter-order prefix, or loses exactly one line |
| Replay.Renderer.StepClip | runtime/stasis_graphics.c:5526-5540 | a clip command flushes first and then changes the clip |
| Replay.Renderer.StepText | runtime/stasis_graphics.c:5555-5561 | a text command flushes first and then draws |
| Replay.Renderer.StepSpan | runtime/stasis_graphics.c:5549-5554 | a span flushes first and then draws |
| Replay.Renderer.SubmitFrame | runtime/stasis_graphics.c:5519-5568 | the flattened calls are the painter-order list exactly when no line queue overflows and no mirrored rectangle is batched, no batch exceeds 2048 quads, and none could have gone out with the one before it unless an invisible sprite lies on another page |
| ReplayOrders.ValidFrameEncodes | runtime/stasis_render_contract.h:235-251 | every frame whose entries refer to something encodes one program of drawing orders, and no other |
| ReplayOrders.EntryIsUnique | runtime/stasis_render_contract.h:75-81 | two orders with the same entry are the same order |
| ReplayOrders.SpritesInOrder | runtime/stasis_graphics.c:6156-6170 | a run paints its visible, usable sprites in order, each from its own page |
| ReplayOrders.RestIsPainted | runtime/stasis_graphics.c:5519-5568 | reading the entries one by one paints what the painter makes of the program: each order by its own index, under the clips pushed and not popped |
| ReplayOrders.LinesFitIff | runtime/stasis_graphics.c:5084-5107 | the line queue overflows exactly when 10001 lines stand in a row in the program |
| ReplayOrders.ReplayProgram | runtime/stasis_graphics.c:5519-5568 | the device paints what the program's painter paints if and only if no 10001 lines stand in a row and no mirrored rectangle is batched; every batch holds 1 to 2048 quads and could not have gone out with the one before it |
| AssetTasks.StepKeepsOrder | runtime/stasis_graphics.c:3058-3243 | every step but a second cancel keeps ids, statuses and the worker's slot in order |
| AssetTasks.StepKeepsTokens | runtime/stasis_graphics.c:7980-8079 | every step leaves each payload or handle with exactly one owner |
| AssetTasks.HeldSlotKeptIff | runtime/stasis_graphics.c:8055-8079 | a step takes the worker's slot away exactly when it cancels a cancelled task |
| AssetTasks.RunIsSafe | runtime/stasis_graphics.c:3058-3243 | every run in which no task is cancelled twice keeps the invariant; what becomes of its tasks is AssetLedger.RunAgrees |
| AssetTasks.SafeState | runtime/stasis_graphics.c:3058-3127 | in such a run the worker's slot is never cleared or reused, owners are unique and at most one decoded payload waits |
| AssetTasks.SecondCancelFreesHeldSlot | runtime/stasis_graphics.c:8065-8075 | two cancels of a loading task leave the worker holding a free slot |
| AssetLedger.RunAgrees | runtime/stasis_graphics.c:3058-3243 | in every run in which no task is cancelled twice the table shows, for each task, exactly what its decoder and its publisher answered and no more |
| AssetLedger.OutcomeWasAnswered | runtime/stasis_graphics.c:8015-8038 | a task has failed, is decoded or is loaded only if an answer of that run for that task said so, and then with the payload or handle that answer made |
| AssetLedger.DecoderAnswers | runtime/stasis_graphics.c:3108-3126 | after the decoder's answer, whatever runs before the thread comes back with it, the task is decoded with the payload made, or failed; the same for the synchronous path |
| AssetLedger.PublisherAnswers | runtime/stasis_graphics.c:8013-8038 | a poll of a decoded task publishes it, and whatever runs meanwhile the task ends loaded with the handle made, or failed with what the publisher left |
| AssetLedger.StaleGoesBack | runtime/stasis_graphics.c:7993-8012 | a sprite decoded for another scale is freed and waits for the decoder again |
| AssetLedger.LeavingEnds | runtime/stasis_graphics.c:8040-8079 | taking the handle or cancelling ends exactly what the answers left and frees the slot; a task at a decoder is only marked |
| AssetLedger.ClaimsFirst | runtime/stasis_graphics.c:3062-3089 | the worker takes a task exactly when it is the first one waiting and no decoded one waits for the caller |
| AssetLedger.RequestsFirst | runtime/stasis_graphics.c:3184-3202 | a request takes the first free slot under the next id |
| AssetLedger.RequestRefused | runtime/stasis_graphics.c:3184-3195 | a request changes nothing exactly when all 64 slots are taken |
| Handles.PackingRoundTrips | runtime/stasis_graphics.c:6194-6198 | unpacking a packed handle gives its slot and generation |
| Handles.PackingFits | runtime/stasis_graphics.c:688-692 | a packed handle is a positive int |
| Handles.FindsIffLive | runtime/stasis_graphics.c:5719-5729 | a lookup succeeds exactly while the lifetime is live |
| Handles.LiveIsNotDead | runtime/stasis_graphics.c:8122-8146 | no ended handle equals a live one |
| Handles.ClaimIsNew | runtime/stasis_graphics.c:7775-7810 | the handle of a newly claimed slot was never issued before |
| Handles.EndKeepsTable | runtime/stasis_graphics.c:8137-8144 | ending a lifetime moves the generation on and retires the slot when it wraps |
| Handles.SlotLifetimes | runtime/stasis_graphics.c:8137-8144 | a slot serves one lifetime per generation, each under its own generation, and is retired after the last |
| Handles.Registry.constructor | runtime/stasis_graphics.c:661 | a new table has no live and no ended handle |
| Handles.Registry.Lookup | runtime/stasis_graphics.c:676-686 | finds exactly the live handles |
| Handles.Registry.EnsureCapacity | runtime/stasis_graphics.c:2722-2764 | grows to at least the minimum within the limit, keeping every slot |
| Handles.Registry.Load | runtime/stasis_graphics.c:7744-7833 | shares the live resource with the key, or starts a lifetime in the first free slot under a never-issued handle; succeeds exactly when it was built and there is a count or a slot left; every other slot stays |
| Handles.Registry.Release | runtime/stasis_graphics.c:8122-8146 | counts are acquisitions minus releases, the last release ends the lifetime and leaves the slot its next generation, other handles are ignored; every other slot stays |
| Handles.Registry.End | runtime/stasis_graphics.c:8137-8144 | the handle moves from live to ended, the slot goes on to the next generation or is retired after its last, and every other slot stays |
| Handles.Registry.EndAll | runtime/stasis_graphics.c:9034-9039 | at shutdown all font lifetimes end, each slot in use goes on to its next generation, and no handle of one comes back |
| TextRuns.PackedFits | runtime/stasis_graphics.c:9620-9634 | stored runs never overlap, so packing them fits where they were |
| TextRuns.CompactingKeepsCache | runtime/stasis_graphics.c:9617-9638 | compaction keeps every surviving run's text and leaves no gap |
| TextRuns.AddingKeepsCache | runtime/stasis_graphics.c:9932-9958 | adding a text that is not cached keeps the cache sound |
| TextRuns.DroppingKeepsCache | runtime/stasis_graphics.c:9606-9616 | invalidating runs keeps it sound |
| TextRuns.SlotLifetimes | runtime/stasis_graphics.c:9392-9408 | a text slot serves 2^20 lifetimes under handles 2048 apart, and then no more |
| TextRuns.LiveIff | runtime/stasis_graphics.c:9373-9384 | a handle is live exactly while its slot is active in its generation |
| TextRuns.OverIsNotLive | runtime/stasis_graphics.c:9606-9616 | no ended handle is live |
| TextRuns.FreeHandleIsNew | runtime/stasis_graphics.c:9385-9390 | the handle of a free slot was never issued |
| TextRuns.EndingMovesHandles | runtime/stasis_graphics.c:9392-9408 | ending runs moves exactly their handles from live to ended |
| TextRuns.ReplacingKeepsDynamic | runtime/stasis_graphics.c:9985-10001 | replacing a text keeps every replaceable run's storage its own |
| TextCaching.TextCache.constructor | runtime/stasis_graphics.c:9392-9408 | an empty cache |
| TextCaching.TextCache.FindOrAlloc | runtime/stasis_graphics.c:9802-9819 | the run with this font and text if any, else the first free slot |
| TextCaching.TextCache.CacheText | runtime/stasis_graphics.c:9912-9958 | returns the live handle of the run with the font and text, or starts one in the first free slot under a handle never issued before and uses the text and its terminator of the buffer; exactly when it returns none; no other run or text changes |
| TextCaching.TextCache.ReplaceText | runtime/stasis_graphics.c:9961-10003 | a live replaceable run keeps its handle and gets the text, otherwise a run starts under a handle never issued before; exactly when it returns none; no other run or text changes |
| TextCaching.TextCache.FindFreeDynamic | runtime/stasis_graphics.c:9821-9834 | the first storage that no replaceable run uses, or none when all is used |
| TextCaching.TextCache.Lookup | runtime/stasis_graphics.c:9373-9384 | finds exactly the live handles |
| TextCaching.TextCache.EndRuns | runtime/stasis_graphics.c:9606-9616 | exactly the font's runs are invalidated, and exactly their handles end |
| TextCaching.TextCache.Compact | runtime/stasis_graphics.c:9617-9638 | every stored text moves to its packed place unchanged |
| TextCaching.TextCache.ReleaseForFont | runtime/stasis_graphics.c:9606-9640 | only the font's runs end, the others keep handle and text, and storage is packed |
| TextCaching.TextCache.Reset | runtime/stasis_graphics.c:9392-9408 | every active run ends and none of their handles comes back |
| TextCaching.TextCache.ReleaseFont | runtime/stasis_graphics.c:10175-10193 | on success exactly the font's runs end, the others keep handle and text, and storage is packed; otherwise every run ends; ended handles never return |
| JsonText.DecimalRoundTrip | runtime/cJSON.c:591-657 | a printed int reads back as itself |
| JsonText.NumberParses | runtime/cJSON.c:307-388 | a printed number in any text parses to its value and stops after it |
| JsonText.TextRoundTrip | runtime/cJSON.c:819-946 | unescaping an escaped string gives it back |
| JsonText.StringParses | runtime/cJSON.c:819-946 | a printed string in any text parses to itself and stops after the quote |
| JsonGrammar.SpelledParses | runtime/cJSON.c:1363-1415 | any bytes that spell a value, with blanks wherever they may stand, parse to it and stop after it, or to nothing when it is nested too deeply |
| JsonGrammar.SpelledItems | runtime/cJSON.c:1492-1587 | so do the items of a list, with blanks before and after each |
| JsonGrammar.SpelledFields | runtime/cJSON.c:1652-1767 | and the fields of an object, with blanks round each key, colon and value |
| JsonGrammar.ParsedSpells | runtime/cJSON.c:1363-1767 | whatever a parse reads spells the value it returns |
| JsonGrammar.ParsesIff | runtime/cJSON.c:1363-1767 | a value is read up to a position if and only if the bytes before it spell the value and it fits the nesting limit |
| JsonGrammar.SpellsOne | runtime/cJSON.c:1363-1767 | no bytes spell two trees |
| JsonGrammar.BodyDecodes | runtime/cJSON.c:819-946 | the body of a string of section 7 of RFC 8259, escapes and surrogate pairs included, decodes to the text it means |
| JsonGrammar.LiteralParses | runtime/cJSON.c:819-946 | every string of RFC 8259 with its surrogates in pairs is read as what it means |
| JsonGrammar.Utf8ReadsBack | runtime/cJSON.c:698-817 | the bytes written for a scalar value are its UTF-8, by an independent reader |
| JsonGrammar.ParseIff | runtime/cJSON.c:1142-1220 | a text parses to a tree if and only if it begins with bytes that spell the tree, after an optional mark and blanks, and the tree is at most 1000 deep |
| JsonGrammar.StrictIsLoose | runtime/cJSON.c:1363-1767 | what RFC 8259 lets spell a value, the parser does too |
| JsonGrammar.StandardTextParses | runtime/cJSON.c:1142-1220 | every text of RFC 8259 that spells a tree parses to it, or to nothing when it is more than 1000 deep |
| JsonGrammar.PrintIsStandard | runtime/cJSON.c:1418-1489 | a printed tree, formatted or not, is a text of RFC 8259 that spells the tree |
| JsonGrammar.PrintThenParse | runtime/cJSON.c:1142-1220 | parsing what was printed, formatted or not, gives the tree back when it is at most 1000 deep and fails otherwise |
| JsonGrammar.Frames | runtime/cJSON.c:1770-1882 | the brackets of lists and objects, and the line breaks and tabs of formatted objects, byte by byte |
| JsonGrammar.TwoItems | runtime/cJSON.c:1590-1650 | items follow one another with a comma, and a space when formatted |
| JsonGrammar.TwoFields | runtime/cJSON.c:1770-1882 | formatted fields take a line each, indented by one tab per level and with a tab after the colon; unformatted ones have nothing between the tokens |
| JsonStrings.PrintedTextIsLegal | runtime/cJSON.c:949-1068 | a printed string is a string of section 7 of RFC 8259 |
| JsonStrings.CountExtra | runtime/cJSON.c:976-1000 | the first pass counts exactly the bytes escaping adds |
| JsonStrings.PrintString | runtime/cJSON.c:949-1068 | the two passes fill the buffer with the quoted, escaped text |
| JsonStrings.WriteEscaped | runtime/cJSON.c:1019-1063 | the second pass writes each byte's escape |
| JsonStrings.FindStringEnd | runtime/cJSON.c:832-854 | finds the closing quote, skipping and counting escapes, or reports that there is none |
| JsonStrings.ParseLiteral | runtime/cJSON.c:819-946 | decodes the literal up to its quote, or fails, and never writes outside the buffer sized by the first pass |
| JsonStrings.UnitFits | runtime/cJSON.c:862-921 | what one round of the decoding loop writes fits what it passed, less the escapes counted there, even where \u swallows half an escape |
| JsonStrings.LiteralFits | runtime/cJSON.c:856-858 | the decoded text and its terminator fit the allocation with a byte to spare |
| JsonLiterals.AcceptedIsLegalIff | runtime/cJSON.c:819-946 | an accepted literal is one of section 7 of RFC 8259 exactly when it has no control byte and four hex digits after every \u |
| JsonLiterals.LegalIsAcceptedIff | runtime/cJSON.c:698-817 | a literal of that grammar is accepted exactly when its surrogates are paired |
| JsonLiterals.AcceptsIllegalLiterals | runtime/cJSON.c:661-696 | `"\uZZZZ"` and a bare line feed are accepted and are not of the grammar |
| JsonStrings.Hex4RoundTrip | runtime/cJSON.c:661-696 | four hex digits read back as the number written |
| JsonStrings.EscapeDecodesToUtf8 | runtime/cJSON.c:698-817 | an escaped code point, as one escape or a surrogate pair, decodes to its UTF-8 bytes |
| JsonLists.Item.GetItem | runtime/cJSON.c:1907-1924 | the child at an index, or null |
| JsonLists.Item.GetSize | runtime/cJSON.c:1884-1905 | the number of children |
| JsonLists.Item.AddItem | runtime/cJSON.c:2012-2043 | appending keeps the list's links exactly when the new item has no successor or the list was empty |
| JsonLists.Item.Detach | runtime/cJSON.c:2243-2277 | removes the item from the sequence and clears its links |
| JsonLists.Item.Insert | runtime/cJSON.c:2319-2351 | inserts before an index, appends past the end, refuses a negative one, and what the links become when an item is inserted into itself |
| JsonLists.Item.Replace | runtime/cJSON.c:2353-2400 | puts the replacement in the item's place |
| JsonLists.DetachThenInsert | runtime/cJSON.c:2243-2351 | detaching an item and inserting it at its index restores the list |
| Crc.CrcUpdate | runtime/stasis_image_writer.c:96-105 | the loops compute the running checksum |
| Crc.UpdateIsSerial | runtime/stasis_image_writer.c:96-105 | adding bytes at once with a mask is the CRC taken one message bit at a time |
| Crc.UpdateJoins | runtime/stasis_image_writer.c:111-112 | continuing a checksum over more data is the checksum of both |
| Crc.OneByteIsDetected | runtime/stasis_image_writer.c:96-105 | changing any one byte changes the checksum |
| Crc.CheckValue | runtime/stasis_image_writer.c:96-112 | over the text 123456789 the checksum is the published CBF43926 |
| PngWriter.Adler32 | runtime/stasis_image_writer.c:120-135 | block-wise sums in 32 bits equal the per-byte definition of section 2.2 of RFC 1950 |
| PngWriter.BlockIsTheLargestSafe | runtime/stasis_image_writer.c:125 | no sum overflows within 5552 bytes, and 5553 would |
| PngWriter.AdlerStep | runtime/stasis_image_writer.c:127-128 | unreduced sums stay congruent to the definition |
| PngWriter.AdlerOfZeros | runtime/stasis_image_writer.c:120-135 | over zero bytes the first sum stays one and the second counts them modulo 65521 |
| PngWriter.StoredInflates | runtime/stasis_image_writer.c:188-200 | the emitted blocks read back as stored blocks of section 3.2.4 of RFC 1951, exactly the last one final |
| PngWriter.StoredSize | runtime/stasis_image_writer.c:167-173 | the blocks take the precomputed size |
| PngWriter.ZlibRoundTrip | runtime/stasis_image_writer.c:184-202 | the zlib stream decodes to the data |
| PngWriter.WriteZlib | runtime/stasis_image_writer.c:167-202 | the loop fills a buffer of the precomputed size exactly |
| PngWriter.WriteBlocks | runtime/stasis_image_writer.c:188-200 | the block loop writes the stored blocks |
| PngFile.LinesRoundTrip | runtime/stasis_image_writer.c:154-165 | filter-0 scanlines read back as the rows |
| PngFile.CapturedPixel | runtime/stasis_image_writer.c:152-165 | the pixel in column x of row y stands at one place of the capture, rows from the top or the bottom, blue first |
| PngFile.CheckEnds | runtime/stasis_image_writer.c:107-118 | the published check value as the bytes that end a chunk |
| PngFile.ChunkReads | runtime/stasis_image_writer.c:107-118 | a written chunk reads back with its type, data and a right checksum exactly when its length is below 2^31, the limit of section 5.3 of the PNG specification |
| PngFile.WriteChunk | runtime/stasis_image_writer.c:107-118 | appends the chunk |
| PngFile.WritePixel | runtime/stasis_image_writer.c:160-163 | one pixel with blue and red exchanged |
| PngFile.WriteRow | runtime/stasis_image_writer.c:155-164 | a zero filter byte and the pixels of one row, for widths whose index fits |
| PngFile.WriteScanlines | runtime/stasis_image_writer.c:152-165 | all rows of the captured picture, flipped when it is bottom-up |
| PngFile.RawFits | runtime/stasis_image_writer.c:144-150 | the first size checks accept exactly the pictures whose scanlines are below 2^32 bytes |
| PngFile.StreamFits | runtime/stasis_image_writer.c:167-177 | the later checks, in size_t arithmetic, accept exactly the streams below 2^32 bytes and those whose block count wraps, and the buffer size computed for each |
| PngFile.WrappedBufferIsShort | runtime/stasis_image_writer.c:167-178 | when the block count wraps the buffer is smaller than the stream |
| PngFile.CountMayWrap | runtime/stasis_image_writer.c:167 | a 16383 by 65539 picture on a host with a 32-bit size_t |
| PngFile.IndexFitsIff | runtime/stasis_image_writer.c:159-164 | the int index of every pixel of a row fits exactly when four times the width does |
| PngFile.IndexMayOverflow | runtime/stasis_image_writer.c:159-164 | a row of 2^29 pixels passes the size checks and its last index does not fit |
| PngFile.ChunkMayBeTooLong | runtime/stasis_image_writer.c:173-174 | a 23171 by 23171 picture is written with an IDAT chunk of 2^31 bytes or more |
| PngFile.FileDecodes | runtime/stasis_image_writer.c:204-218 | a whole file decodes to its picture when the stream is below 2^31 bytes, and not otherwise |
| PngFile.WritePng | runtime/stasis_image_writer.c:138-224 | exactly when the call has no meaning in C, when it refuses and when it writes, and that a written file decodes to the captured pixels exactly when the stream is below 2^31 bytes |
| DisplayScale.GcdLoop | runtime/stasis_display_scale.h:276-283 | the loop computes the greatest common divisor |
| DisplayScale.LowestTermsIsUnique | runtime/stasis_display_scale.h:306-308 | a value has one fraction in lowest terms |
| DisplayScale.ChangedIffValueDiffers | runtime/stasis_display_scale.h:311-316 | the change test is true exactly when the values differ |
| DisplayScale.PreparationScale | runtime/stasis_display_scale.h:285-309 | the smaller axis ratio kept in [1, 8], in lowest terms, without 64-bit overflow |
| DisplayScale.SpriteScale | runtime/stasis_display_scale.h:338-362 | the larger axis ratio, at least 1, in lowest terms |
| DisplayScale.TextScale | runtime/stasis_display_scale.h:422-446 | the larger axis ratio, at least 2, in lowest terms |
| DisplayScale.RoundUp | runtime/stasis_display_scale.h:329-331 | the integer division is the exact ceiling |
| DisplayScale.BackingExtent | runtime/stasis_display_scale.h:318-333 | the exact ceiling of extent times scale, capped at 65536 |
| DisplayScale.FontExtent | runtime/stasis_display_scale.h:448-463 | the same with the text scale |
| QuadPlanner.NoAssignmentIsCheaper | runtime/stasis_mixed_quad_planner.h:62-96 | no choice of pages for solids costs less than the sprites alone |
| QuadPlanner.FilledCost | runtime/stasis_mixed_quad_planner.h:71-87 | the planner's choice costs that, or one more when the leading solids got another page |
| QuadPlanner.PlanIsMinimalIff | runtime/stasis_mixed_quad_planner.h:64-96 | exactly when the planner's page changes are the fewest possible |
| QuadPlanner.LookAheadMayCost | runtime/stasis_mixed_quad_planner.h:75-80 | a stream on which the bounded look-ahead costs a page change |
| QuadPlanner.LookAhead | runtime/stasis_mixed_quad_planner.h:75-80 | the first sprite's page within reach |
| QuadPlanner.PlanDomains | runtime/stasis_mixed_quad_planner.h:64-96 | transitions of the chosen pages, and submissions as the sum over same-page runs of their length over the capacity, rounded up |
| AssetPath.LongBufferSuffices | runtime/stasis_asset_path.h:45-49 | a buffer one longer than the path never refuses for size |
| AssetPath.OutputIsClean | runtime/stasis_asset_path.h:31-51 | no empty, dot or dot-dot segment is left |
| AssetPath.OutputReadsBack | runtime/stasis_asset_path.h:31-51 | splitting the output gives its segments back |
| AssetPath.OutputIsStable | runtime/stasis_asset_path.h:31-51 | splitting and resolving the output of any path gives the same segments |
| AssetPath.OutputAcceptedIff | runtime/stasis_asset_path.h:21-28 | the output passes the guards again exactly when its first segment does not look like a drive |
| AssetPath.DriveAfterDot | runtime/stasis_asset_path.h:20-38 | `./C:/x` is accepted and normalises to a path the guards refuse |
| AssetPath.CleanIsFixed | runtime/stasis_asset_path.h:38-49 | resolving clean segments changes nothing |
| AssetPath.DotLaws | runtime/stasis_asset_path.h:38-43 | a dot changes nothing, a dot-dot cancels the name before it, and one with no name before it is ignored |
| AssetPath.SeparatorLaws | runtime/stasis_asset_path.h:31-37 | runs of slashes and backslashes only separate |
| AssetPath.AcceptedIff | runtime/stasis_asset_path.h:20-28 | the guards pass exactly the paths that are not absolute outside the asset root, do not start with a backslash or a drive, and hold no `://` |
| AssetPath.RefusedIff | runtime/stasis_asset_path.h:12-58 | with a buffer longer than the path, exactly which paths are refused |
| AssetPath.RootedOutput | runtime/stasis_asset_path.h:54-56 | the final test looks at the first segment |
| AssetPath.NextSegment | runtime/stasis_asset_path.h:31-37 | the cursor loops read the next segment of the split |
| AssetPath.PopSegment | runtime/stasis_asset_path.h:39-43 | the buffer loses exactly its last segment |
| AssetPath.PushSegment | runtime/stasis_asset_path.h:45-49 | the buffer gains the segment exactly when it fits with its terminator |
| AssetPath.Normalize | runtime/stasis_asset_path.h:12-58 | succeeds exactly for accepted paths whose fold fits and ends non-empty, under "assets" when rooted, and writes the slash-join of the stack |

## Left out

- The Rust compiler, its JIT and hot swap are not part of this model.
- SDL windowing, events, texture contents, screenshots, logging, environment variables and files: input and output.
- Audio decoding, mixing and file loading: signal processing on floats.
- Float viewport and window arithmetic of `runtime/stasis_display_scale.h`, and the crop and transform helpers of the quad planner: they rest on C float rounding.
- Non-integer JSON numbers: they rest on `sprintf` and `strtod`. Raw JSON items, buffer growth and `cJSON_Minify` are not modelled either.
- The unordered drawing path of a frame with an empty order list.
- Validation of the command stream itself; a valid stream is the precondition.
- Progress of the asset worker: cancelling a decoded task does not wake it, so only safety is stated. Shutdown of the worker and wrap-around of task ids are not modelled.
- Sealing a page, which rewrites a sheet in place but not the fallback sprite's copy of it.
- Memory limits of staging and the re-baking of sprites, folded into the host's answer.
- Building glyph quads, UTF-8 validation and font readiness are flags of the text calls.
- The BMP writer, error handling of `fwrite`, and removal of a partly written PNG file.
- AtlasPage.Page.BestFit: areas are unbounded integers; they are C ints on pages whose own area is one, which AtlasPage.AreasFit states.
- DisplayScale.PreparationScale: the scale of a sprite instance with a floating-point instance factor is not modelled.
- AtlasStaging.Planner.Stage: a placement names its slot directly; decoding its handle is the subject of Handles.
