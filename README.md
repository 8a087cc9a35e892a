# CompareSet in Dafny

CompareSet (also shipped as Coprela) compares two revisions of a technical drawing and reports what
changed. Each revision is a PDF or a raster, and the changes are reported as boxes labelled added,
removed or modified. The repository holds several generations of the comparison engine. This project models the
deterministic logic inside them: masks, rectangles, matching, parsing and record keeping. It also proves
what that logic promises.

The model is grouped the way the program is:

- **Raster diff core** (`src/compareset/compare.py`, `src/compareset/utils/image_ops.py`). Rasters and
  masks are `array2<int>`. The per-pixel thresholds and one-sided differences are array
  initialisers (`CompareMasks`). The max/min filters, the closing and the dilation are loops over the
  kernel offsets with their invariants. The ignore-ROI masking is in place, and the stack-based
  8-connected flood fill is one method (`Labeling.LabelComponents`) with a visited array. On top of these
  come the added/removed/modified classifier, the IoU-driven merge (`CompareMerge`) and the pixel-to-point
  mapping with padding and sorting (`CompareRegions`, `ComparePage`). The OpenCV-free fallback is in
  `ImageOps`.
- **Rectangle toolkits** of the legacy engines (`compare_engine.py`, `compareset_mvp.py`,
  `compare_set_gui.py`, `compare7_gui.py`, `comparador.py`, `pdf_raster_diff.py`). One shared box type
  (`Geometry`) is used throughout. Each engine's touch test is modelled as written:
  - strict overlap;
  - a shared edge;
  - a 1-pixel tolerance;
  - a distance expansion.

  Alongside them are their fixpoint merges, greedy NMS, clipping, letterbox canvases and 72/dpi
  scaling.
- **Vector-element engines** (`pdf_diff.py`, `comparador.py`, `backend.py`, `pdf_svg_compare.py` and the
  text filters of `compare_engine.py`). They do greedy one-to-one IoU matching of old and new boxes
  (`Greedy`, `VectorMatch`). Post-filters then drop unchanged or slightly moved pairs. The adaptive
  threshold schedule is kept as exact multiples of 0.05 in reals, with its stop rule.
- **Parsers and string transforms**:
  - colour strings and the preset table (`Presets`);
  - `--ignore-roi` arguments (`Cli`);
  - SVG element boxes and style sets (`PdfSvg`);
  - Qt style strings (`LayoutDesigner`, `StyleRoundTrip`);
  - version tuples (`AutoUpdater`);
  - result file names (`EngineNames`);
  - Win32 `\\?\` long paths (`LongPath`);
  - the content-stream colour splice (`PdfEdit`). The splice wraps one stroke operator `S` in `q`,
    `RG` and `Q`, as in sections 8.4.4, 8.5.3 and 8.6.8 of ISO 32000-1.
- **State machines and record stores**:
  - the offline account store (`Auth`);
  - connection and storage-root selection (`CompareSetEnv`, `ConfigEnv`, `Storage`);
  - job history (`HistoryService`);
  - user lists (`UserCheck`);
  - the access-list check (`ServerIo`);
  - the update decision (`AutoUpdater`).

  Objects whose fields the program updates are Dafny classes:
  - the account store (`Auth.UserStore`);
  - the environment and configuration state (`CompareSetEnv.Env`, `ConfigEnv.Config`);
  - the history file (`HistoryService.HistoryStore`);
  - the PDF-to-pixel mapper (`EnginePixels.PixelMapper`);
  - the SVG nodes (`PdfSvg.SvgNode`).

  Their methods state the whole new state, and lemmas state the invariants those methods keep.

Scores and IoU are `real`. No floating point is modelled. The hashing primitives, the
machine identifier, the clock, `abspath` and all file, network and library calls are parameters of
the operations that use them.

## Model

| member | source | states |
|---|---|---|
| Auth.CheckOwnHash | src/compareset/auth.py:41-51 | a password checks against the hash `hash_password` made from it with a 16-byte salt, given that base64 decoding undoes encoding |
| Auth.FindEmail | src/compareset/auth.py:89-91 | the position of the first record whose e-mail matches, with no match before it, or the record count when there is none |
| Auth.FindUnset | src/compareset/auth.py:69-70 | the position of the first record with the e-mail and no password, with none before it, or the record count |
| Auth.PreregisterLaws | src/compareset/auth.py:58-64 | a known e-mail leaves the records unchanged; a new one appends one record with no password and no machine; pre-registering twice is pre-registering once |
| Auth.SetPasswordLaws | src/compareset/auth.py:67-74 | success exactly when some record has the e-mail and no password; then that first record changes only its password, to the hash, and every other record is unchanged; on failure nothing changes |
| Auth.ResetLaws | src/compareset/auth.py:77-84 | success exactly when some record has the e-mail; then the first such record loses its password and keeps every other field, it is still the first with that e-mail, and every other record is unchanged; the list keeps its length; on failure nothing changes |
| Auth.LoginFailures | src/compareset/auth.py:89-94 | a login fails and changes nothing for an unknown e-mail, an empty password or a wrong password |
| Auth.MachineBinding | src/compareset/auth.py:95-101 | after a successful login the record is bound to that machine; a later login succeeds from that machine and from no other |
| Auth.ResetBlocksLogin | src/compareset/auth.py:77-94 | after a reset no password logs in |
| Auth.FirstAccessFlow | tests/test_auth.py:16-32 | pre-register, a failed login before any password, set the password, two logins from machine1, machine2 refused |
| Auth.UserStore.PreregisterEmail | src/compareset/auth.py:58-64 | the records become the pre-registration of the old records |
| Auth.UserStore.SetPassword | src/compareset/auth.py:67-74 | the loop's records and result are those of the set-password specification, with the hash of the given salt |
| Auth.UserStore.ResetPassword | src/compareset/auth.py:77-84 | the loop's records and result are those of the reset specification |
| Auth.UserStore.VerifyLogin | src/compareset/auth.py:87-102 | the loop's records and result are those of the login specification, with the caller's machine id or else the host's |
| AutoUpdater.ParsePartsLaws | auto_updater.py:30 | every part read as an integer, in order, or nothing exactly when some part is not an integer |
| AutoUpdater.VersionTuple | auto_updater.py:26-32 | a false or non-string value gives `(0,)`; a string gives the integers of its dotted parts, or `(0,)` when one part is not an integer; never empty |
| AutoUpdater.VersionRoundTrip | auto_updater.py:26-32 | reading a printed dotted version gives back its numbers |
| AutoUpdater.TupleOrder | auto_updater.py:54-56 | Python's tuple comparison is irreflexive, asymmetric, total and transitive |
| AutoUpdater.CheckForUpdates | auto_updater.py:39-65 | an empty manifest sets only the local version; otherwise the manifest fields are copied, an update is available and required exactly when the latest tuple is above the local one, the block is forced exactly when a minimum version is given and the local tuple is below it, and the message is the changelog or the fixed text of each case, or none |
| AutoUpdater.NumericOrder | auto_updater.py:26-54 | versions compare as numbers (1.10 is newer than 1.9) and a version is never newer than itself |
| Backend.BackendIou | backend.py:46-59 | the unguarded division agrees with the guarded IoU of the other engines, because a positive overlap implies a positive union |
| Backend.ScaleFactor | backend.py:64-65 | the factor maps the new side onto the old one, and is 1.0 when the new side is zero |
| Backend.ScaleItems | backend.py:12-43 | one scaled element per input element, with its text kept |
| Backend.ComparePages | backend.py:62-93 | the loop's removed and added lists are those of the greedy one-to-one matching of the old elements against the scaled new ones |
| Backend.DocResults | backend.py:100-102 | one result per page index below the larger page count, each the page's comparison |
| Backend.ComparePdfs | backend.py:96-116 | the removed and added records are the page results tagged with their page index, in page order |
| Backend.ScaleFrame | backend.py:64-68 | the scaled frame of the new page is the old page's frame when the new sides are non-zero |
| Backend.SameSize | backend.py:64-93 | pages of one size are compared without scaling |
| Backend.MissingPages | backend.py:103-110 | records for pages beyond the old document are the new page's elements, as added only; records for pages beyond the new document are the old page's elements, as removed only |
| Backend.SelfCompare | backend.py:70-93 | a document compared with itself reports nothing when its elements have positive area and the threshold is at most 1 |
| Canvas.CenterOffset | compareset_mvp.py:107-110 | the floor of half the slack: a side that fits lies within the canvas |
| Canvas.Paste | compareset_mvp.py:112-113 | the image's pixels are copied to its window on the canvas and every other pixel keeps its old value |
| Canvas.Center | compare_set_gui.py:67-74 | a fresh canvas of the given size, filled with the background level except for the image at the centring offsets, which are returned |
| Cli.PageOf | src/compareset/__main__.py:125-129 | the page of `p<N>` is N - 1, never below 0 |
| Cli.Normalise | src/compareset/__main__.py:137-138 | the corners are ordered and are the given coordinates, per axis |
| Cli.ParseRoiLaws | src/compareset/__main__.py:116-139 | a value is skipped exactly when blank; a bad page number or a count other than four is an error; a parsed mask has the normalised rectangle, and a page index exactly when a `p<N>:` prefix was given |
| Cli.ErrorSticks | src/compareset/__main__.py:126-136 | once a value raises, the whole list gives that error |
| Cli.ParseRois | src/compareset/__main__.py:114-140 | the loop's result is the first error or the masks of the non-blank values in order |
| Cli.ParseRoisOk | src/compareset/__main__.py:114-140 | the list parses exactly when every value does |
| Cli.ParseRoisCount | src/compareset/__main__.py:117-139 | one mask per non-blank value |
| Cli.ParseRoisMembers | src/compareset/__main__.py:117-139 | every mask is the parse of one of the values, with ordered corners and a page index of at least 0 |
| Cli.ParseRoiShape | src/compareset/__main__.py:128-139 | a parsed mask has ordered corners and a page index of at least 0 |
| Cli.CollectSpec | src/compareset/__main__.py:108-110 | a key is collected exactly when some entry under it has a value, and with distinct names it holds that value |
| Cli.Replace | src/compareset/presets.py:72-76 | a keyword that is not a field is a TypeError, and nothing else is |
| Cli.OverrideParams | src/compareset/__main__.py:92-111 | the loop's dict, passed to `copy`, gives the override specification |
| Cli.OverrideLaws | src/compareset/__main__.py:92-111 | the result is a TypeError exactly when a touch gap, containment epsilon or minimum box area is given; otherwise every field takes the command-line value when one was given and keeps the preset's otherwise, and `min_area_px` always keeps the preset's |
| Cli.UnknownWhenGiven | src/compareset/__main__.py:103-106 | a given touch gap, containment epsilon or minimum box area puts a key the parameters lack into the dict |
| Cli.UnknownOnlyThese | src/compareset/__main__.py:94-107 | every other key the dict can hold is a parameter field |
| Cli.OverrideNothing | src/compareset/__main__.py:108-111 | with no command-line value the preset's parameters come back unchanged |
| Comparador.Gap | comparador.py:9-13 | the gap between two intervals is never negative |
| Comparador.CloseLaws | comparador.py:5-13 | closeness is symmetric; for a non-negative distance it holds exactly when the gap is within the distance on both axes, so overlapping boxes are close |
| Comparador.PassFrom | comparador.py:28-38 | one pass never adds unused boxes, and a pass that reports a change has absorbed a box |
| Comparador.Grow | comparador.py:25-38 | the passes from one base end with one flag per box |
| Comparador.PassLaws | comparador.py:28-38 | a pass only grows the box, marks only boxes from its start on, never unmarks one, and every box it marks lies inside the final box |
| Comparador.GrowLaws | comparador.py:24-38 | growing from a base ends in a box holding the start box, marks only later boxes, never unmarks one, and every marked box lies inside the final box |
| Comparador.AbsorbPass | comparador.py:28-38 | the inner loop computes one pass |
| Comparador.GrowBox | comparador.py:24-38 | the `while changed` loop computes the growth from the base box |
| Comparador.MergeDimensionBoxes | comparador.py:16-40 | the loop's result is the merge specification; every input lies inside the output it ended in, and an output absorbs only inputs at or after its own base, the bases increasing |
| Comparador.BasesBound | comparador.py:21-39 | strictly increasing bases below n number at most n, so the count never grows |
| Comparador.MergeFar | comparador.py:16-40 | when no two boxes are close, merging returns the boxes unchanged |
| Comparador.MergePositive | comparador.py:16-40 | boxes of positive area merge into boxes of positive area |
| Comparador.MergeTwoClose | comparador.py:31-39 | two close boxes merge into their bounding box |
| Comparador.MergedPages | comparador.py:53-55 | one page per page, merged when a distance is given |
| Comparador.MergeAllPages | comparador.py:47-56 | the page loop computes the merged pages |
| Comparador.PlainResults | comparador.py:102-109 | one result per page index below the larger page count, a missing page counting as empty |
| Comparador.TagBoxes | comparador.py:110-111 | one record per box, carrying the page |
| Comparador.ComparePages | comparador.py:104-111 | the page loop's records are the page results tagged with their page |
| Comparador.CompararPdfs | comparador.py:97-113 | the records of the comparison of the extracted, merged pages |
| Comparador.TagAllBoxesPages | comparador.py:110-111 | every record carries the page it came from and a box of that page's result |
| Comparador.TagAllBoxesQuiet | comparador.py:106-111 | pages that each report nothing give no records |
| Comparador.MissingPages | comparador.py:107-109 | a page only the old document has reports all its boxes as removed, one only the new has as added |
| Comparador.SelfCompare | comparador.py:97-113 | a document compared with itself reports nothing, merged or not, when its rectangles have positive area and the threshold is at most 1 |
| Compare7.EnsurePdf | compare7_gui.py:53-57 | a path passes exactly when it is a file whose name ends in `.pdf` in any case; a missing file is a FileNotFoundError before the name is looked at, otherwise the refusal is a ValueError |
| Compare7.Canvases | compare7_gui.py:148-175 | renders of one shape are kept as they are with offsets (0, 0); otherwise both are centred on fresh black canvases of the larger height and width, each canvas pixel being the render's pixel inside it and black outside |
| Compare7.ContourBoxes | compare7_gui.py:190-194 | exactly the corner boxes of the contour rectangles of at least 36 pixels, and no more boxes than rectangles |
| Compare7.OverlapsLaws | compare7_gui.py:61-67 | the tolerant test is symmetric and, for well-formed boxes, holds exactly when the first box grown by one pixel meets the second |
| Compare7.FirstOverlap | compare7_gui.py:75-76 | the index the loop breaks at: the first box overlapping the current one, all earlier ones not overlapping |
| Compare7.Place | compare7_gui.py:73-89 | the merged list grows by one exactly when the popped box overlaps none of it |
| Compare7.StepLaws | compare7_gui.py:72-89 | every turn of the `while pending` loop keeps the boxes inside their range and lowers a measure, so the loop ends |
| Compare7.PlaceBox | compare7_gui.py:74-89 | the `for ... break` loop computes one turn's placement |
| Compare7.MergeBoxes | compare7_gui.py:60-91 | the work-list loop computes the merge specification |
| Compare7.WorkCovers | compare7_gui.py:72-91 | every box ever pending or merged lies inside a box of the result |
| Compare7.MergeLaws | compare7_gui.py:60-91 | every input box lies inside an output box, there are no more outputs than inputs, no input gives no output, and outputs stay inside any region holding the inputs |
| Compare7.MergeKeepsDuplicates | compare7_gui.py:75-87 | for a horizontal bar, a vertical bar and a corner box the result holds the same hull twice: only the first overlapping slot is merged into |
| Compare7.ClipBox | compare7_gui.py:94-106 | the clamped box is the largest box inside both the box and the page, and nothing comes back exactly when no box of positive area lies inside both |
| Compare7.MapBoxes | compare7_gui.py:203-229 | a rectangle is in the result exactly when it is some box shifted by minus the offset, clipped to the page and scaled to points; every rectangle lies in the page and is non-degenerate; no more rectangles than boxes |
| Compare7.MapBoxesLoop | compare7_gui.py:209-229 | the loop computes the mapped rectangles |
| Compare7.SameShapeSameRects | compare7_gui.py:231-232 | renders of one shape get the same rectangles on both pages |
| Compare7.RunCompare | compare7_gui.py:109-232 | the old path is checked first, then the new one, then a document without pages is refused, old first; otherwise the result is the rectangles of both pages |
| CompareMasks.ThresholdPixel | src/compareset/compare.py:345-347 | a pixel is 255 exactly when it reaches the threshold and 0 exactly when it does not |
| CompareMasks.Threshold | src/compareset/compare.py:345-347 | a fresh mask of the image's shape, each pixel the thresholded value |
| CompareMasks.OneSided | src/compareset/compare.py:350-353 | the added and the removed difference are never both nonzero, and their difference is a - b |
| CompareMasks.PositiveDifference | src/compareset/compare.py:350-353 | a fresh gray raster of the inputs' shape, each pixel a - b clamped below at 0 |
| CompareMasks.AbsDifference | src/compareset/compare.py:199 | a fresh gray raster, each pixel the absolute difference, which never wraps in int16 |
| CompareMasks.Maximum | src/compareset/compare.py:210 | a fresh raster, each pixel the larger of the two |
| CompareMasks.CentreBound | src/compareset/compare.py:434-453 | a max filter never lowers a pixel, a min filter never raises one |
| CompareMasks.WindowFilter | src/compareset/compare.py:434-453 | each output pixel is the maximum (or minimum) over the k-by-k window of the padded mask |
| CompareMasks.MaxFilter | src/compareset/compare.py:434-442 | the window maximum; it never clears a pixel, keeps a mask a mask and an empty mask empty |
| CompareMasks.MinFilter | src/compareset/compare.py:445-453 | the window minimum; it never sets a cleared pixel, keeps a mask a mask and an empty mask empty |
| CompareMasks.Copy | src/compareset/compare.py:421 | a fresh raster with the same pixels |
| CompareMasks.Iterate | src/compareset/compare.py:420-431 | no iterations give a copy, one gives one filter pass, and masks stay masks |
| CompareMasks.BinaryDilate | src/compareset/compare.py:420-424 | dilation never clears a pixel, keeps a mask a mask and an empty mask empty |
| CompareMasks.BinaryErode | src/compareset/compare.py:427-431 | erosion never sets a cleared pixel, keeps a mask a mask and an empty mask empty |
| CompareMasks.CloseExtensive | src/compareset/compare.py:416-417 | closing with an odd kernel never clears a pixel |
| CompareMasks.BinaryClose | src/compareset/compare.py:416-417 | with an odd kernel the closed mask holds every pixel of the input; masks stay masks and an empty mask stays empty |
| CompareMasks.OddKernel | src/compareset/compare.py:357-359 | the kernel is odd and at least 1: an odd size is kept, an even one grows by one, one below 1 becomes 1 |
| CompareMasks.ApplyMorphology | src/compareset/compare.py:356-369 | the fallback path never clears a pixel of a gray input, keeps masks masks and an empty mask empty |
| CompareMasks.RoiPixels | src/compareset/compare.py:252-256 | the pixel rectangle of an ROI lies inside the raster |
| CompareMasks.ZeroRect | src/compareset/compare.py:259-261 | exactly the pixels of the rectangle become 0 and the others keep their value |
| CompareMasks.ApplyRoiMasks | src/compareset/compare.py:238-262 | in all three masks exactly the pixels some non-empty ROI rectangle covers become 0, every other pixel keeps its value |
| CompareMasks.WithKeyMembers | src/compareset/compare.py:144-148 | a group holds exactly the ROIs with its key |
| CompareMasks.IndexedLaws | src/compareset/compare.py:140-149 | the index has exactly the keys with a non-empty group, and under each that group in input order |
| CompareMasks.IndexRois | src/compareset/compare.py:140-149 | the loop's index groups the ROIs by page, -1 for every page, keeping input order |
| CompareMasks.RoisForPage | src/compareset/compare.py:152-157 | a page's ROIs are the every-page ROIs followed by that page's, each in input order |
| CompareMerge.ClassifyRegion | src/compareset/compare.py:326-334 | "added" exactly when only the added score reaches 0.05, "removed" exactly when only the removed score does, "modified" when both or neither do |
| CompareMerge.ClassifySwap | src/compareset/compare.py:326-334 | exchanging the two scores exchanges "added" and "removed" |
| CompareMerge.ResolveChangeType | src/compareset/compare.py:337-342 | a balance above 0.05 gives "added", below -0.05 "removed", and otherwise the classification stands |
| CompareMerge.ResolveLaws | src/compareset/compare.py:337-342 | resolution keeps a change type a change type and commutes with negating the balance and swapping the types |
| CompareMerge.MergeChangeType | src/compareset/compare.py:496-501 | equal types stay, any two different types give "modified" |
| CompareMerge.MergeChangeTypeLaws | src/compareset/compare.py:496-501 | merging types is commutative and associative, "modified" absorbs, change types stay change types |
| CompareMerge.Iou | src/compareset/compare.py:504-524 | the overlap is a share in [0, 1], positive exactly when the boxes share area |
| CompareMerge.IouSym | src/compareset/compare.py:504-524 | the overlap is symmetric |
| CompareMerge.IouSelf | src/compareset/compare.py:504-524 | a box of positive area overlaps itself completely |
| CompareMerge.IouDisjoint | src/compareset/compare.py:514-518 | boxes separated on an axis do not overlap |
| CompareMerge.FoldBox | src/compareset/compare.py:477-485 | the folded box holds the base and every absorbed box |
| CompareMerge.FoldBoxLeast | src/compareset/compare.py:477-485 | it is the least such box |
| CompareMerge.FoldScore | src/compareset/compare.py:486 | the folded score is the largest of the scores |
| CompareMerge.FoldDiff | src/compareset/compare.py:487 | the folded balance is the sum of the balances |
| CompareMerge.FoldKind | src/compareset/compare.py:488 | the folded type is the shared type when all agree and "modified" otherwise |
| CompareMerge.Partition | src/compareset/compare.py:479-491 | every remaining entry is either absorbed or kept, never both, the absorbed ones overlapping the base by at least the threshold and the kept ones less |
| CompareMerge.PartitionMembers | src/compareset/compare.py:479-491 | both sides hold only remaining entries |
| CompareMerge.MergeGroupsPartition | src/compareset/compare.py:475-493 | one group per merged entry, and the groups partition the sorted input |
| CompareMerge.MergeGroupsFold | src/compareset/compare.py:475-493 | every merged entry is its group folded into the group's head |
| CompareMerge.MergeGroupsOverlap | src/compareset/compare.py:480 | every member of a group overlaps its head by at least the threshold |
| CompareMerge.MergeCoversOne | src/compareset/compare.py:475-493 | every entry lies inside some merged entry |
| CompareMerge.MergeAboveOne | src/compareset/compare.py:480 | a threshold above 1 is never met, so nothing merges |
| CompareMerge.SortByCorner | src/compareset/compare.py:473 | a permutation of the entries sorted by top-left corner |
| CompareMerge.MergePass | src/compareset/compare.py:476-492 | one pass of the loop: the head folded with its overlaps, and the other entries kept in order |
| CompareMerge.MergeBoxes | src/compareset/compare.py:467-493 | the loop computes the merge specification; no more entries come out than went in, and every input lies inside an output |
| ComparePage.Binarize | src/compareset/compare.py:387 | a pixel is set exactly when the mask is positive there |
| ComparePage.ConnectedComponents | src/compareset/compare.py:386-413 | the components are pairwise disjoint 8-connected sets of set pixels that together hold exactly the set pixels; the boxes are exactly the tight boxes of the components that reach the area limit, in component order, each inside the raster |
| ComparePage.SsimPixelGray | src/compareset/compare.py:460-462 | for gray pixels the fallback map is one minus the difference share, 1 where the pixels agree |
| ComparePage.SsimMaskPixel | src/compareset/compare.py:202-203 | 255 exactly where one minus the map reaches the threshold |
| ComparePage.SsimScoreRange | src/compareset/compare.py:463 | the score of a non-empty raster lies in [0, 1] and is 1 for identical rasters |
| ComparePage.SsimFallback | src/compareset/compare.py:456-464 | the SSIM mask pixel by pixel; no score exactly for an empty raster, a score in [0, 1] otherwise, 1 for identical inputs |
| ComparePage.CombinedMask | src/compareset/compare.py:199-210 | fresh, distinct masks of the page's shape: the added and removed masks threshold the one-sided differences, and the combined mask is their maximum with the difference and SSIM masks |
| ComparePage.DiffPage | src/compareset/compare.py:190-235 | a dpi of 0 is the only error; the page keeps its index and size; the regions are sorted, carry the page index and a change type; the SSIM score is absent exactly for an empty raster and lies in [0, 1]; identical rasters score 1 and, with positive thresholds, give no region; a page covered entirely by ignore ROIs gives no region |
| ComparePage.CountsAddUp | src/compareset/compare.py:69-72 | when every region has a change type, the three counts add up to the total |
| ComparePage.PageSummaryAddsUp | src/compareset/compare.py:61-74 | a page's summary counts add up to its total |
| ComparePage.ResultSummaryBounds | src/compareset/compare.py:90-93 | pages with regions are at most the pages and at most the regions, and both are zero together, exactly when no page has regions |
| ComparePage.PagePairing | src/compareset/compare.py:107-133 | the paired count plus each side's extra pages give that side's count, and at most one side has extra pages |
| ComparePage.ComparePdfs | src/compareset/compare.py:97-137 | a dpi of 0 with pages on both sides is an error; with any other dpi and old pages that can be resized it succeeds; page i of the result compares page i of the new document with page i of the old one, resized to the new shape when the shapes differ, using the every-page ROIs and those of page i, and the extra pages are counted |
| ComparePage.NearestIndex | src/compareset/compare.py:183-186 | the rounded, clipped linspace index always lies inside the source axis |
| ComparePage.ResizeRaster | src/compareset/compare.py:168-187 | a raster already of the target shape, or an empty one, is returned as is; otherwise a fresh raster of the target shape whose every pixel is the nearest-index source pixel, still grey |
| ComparePage.ComparePair | src/compareset/compare.py:112-126 | one loop step: an error exactly for a dpi of 0 or an old raster that cannot be brought to the new shape; otherwise the page diff of the (resized) old raster against the new one, with all the page-level guarantees |
| CompareRegions.SliceBound | src/compareset/compare.py:288-290 | a slice bound normalised into the axis, unchanged when already inside it |
| CompareRegions.RectSumBound | src/compareset/compare.py:292-295 | the sum of a gray crop lies between 0 and 255 times its size, 0 on an all-zero mask |
| CompareRegions.ScoreRange | src/compareset/compare.py:292-295 | a crop's mean share lies in [0, 1], 0 on an all-zero mask |
| CompareRegions.PaddedContains | src/compareset/compare.py:283-286 | with non-negative padding an in-raster box lies inside its padded box, which lies inside the raster |
| CompareRegions.EnrichSources | src/compareset/compare.py:278-298 | each enriched entry comes from a box that passed the area test, padded and scored |
| CompareRegions.EnrichKeeps | src/compareset/compare.py:278-298 | each box that passed the area test has its enriched entry |
| CompareRegions.EnrichValues | src/compareset/compare.py:292-298 | enriched types are change types, and scores are shares for a gray mask |
| CompareRegions.EnrichBoxes | src/compareset/compare.py:276-298 | the loop computes the enriched entries |
| CompareRegions.ToRegionGeometry | src/compareset/compare.py:305-320 | a region's point box scales from the page origin and its point area is the pixel area times the squared scale |
| CompareRegions.ToRegions | src/compareset/compare.py:302-321 | one region per merged entry, in order |
| CompareRegions.MapRegions | src/compareset/compare.py:302-321 | the loop computes those regions |
| CompareRegions.SortRegions | src/compareset/compare.py:322 | a permutation of the regions sorted by change type, then point box |
| CompareRegions.BoxesToRegions | src/compareset/compare.py:265-323 | the method computes the region specification |
| CompareRegions.FinishRegions | src/compareset/compare.py:300-323 | merge, map to points and sort |
| CompareRegions.RegionsShape | src/compareset/compare.py:265-323 | the regions are sorted, no more than the boxes, carry change types and the page index |
| CompareRegions.MergedKinds | src/compareset/compare.py:300 | merging keeps every type a change type |
| CompareRegions.RegionsCover | src/compareset/compare.py:278-316 | with non-negative padding every in-raster box that passes the area test lies inside the pixel box of some region |
| CompareRegions.RegionsEmpty | src/compareset/compare.py:265-323 | no candidate boxes, no regions |
| DiffBridge.TargetOf | src/compareset/core/diff_bridge.py:31-39 | a target carries the object's fields and the diff |
| DiffBridge.BuildTargets | src/compareset/core/diff_bridge.py:14-41 | the loop computes the target specification |
| DiffBridge.TargetsShape | src/compareset/core/diff_bridge.py:26-41 | every target is the target of an object the map holds a diff for, every such object gives its target, and there are no more targets than objects |
| DiffBridge.TargetsEmptyMap | src/compareset/core/diff_bridge.py:28-30 | an empty diff map gives no targets |
| EngineGroups.GroupSpan | compare_engine.py:1546-1588 | the loop over one span's characters computes the span's groups |
| EngineGroups.ScanLaws | compare_engine.py:1549-1576 | the scan keeps its invariant: closed groups are words, the open word holds no space, and no usable letter is lost |
| EngineGroups.SpanGroupsLaws | compare_engine.py:1546-1588 | a span's groups are non-empty and hold no whitespace, and their texts spell the span's usable non-space characters in order |
| EngineGroups.ExtractTextGroups | compare_engine.py:1535-1589 | the loops compute the groups of the text spans at the given scales, `scale_y` defaulting to `scale_x` |
| EngineGroups.GroupsOfWords | compare_engine.py:1541-1589 | every group of a page is a word |
| EngineGroups.SpansSkipNonText | compare_engine.py:1542-1543 | blocks of a type other than 0 contribute nothing |
| EngineNames.Padded | compare_engine.py:682 | a number written in exactly the field's width of decimal digits |
| EngineNames.PaddedValue | compare_engine.py:682 | reading a padded number gives the number back |
| EngineNames.PaddedOfValue | compare_engine.py:698 | writing the value of a digit string in its width gives the digits back |
| EngineNames.Format | compare_engine.py:682 | a stamp is 15 characters with `-` at position 8 |
| EngineNames.ParseFormat | compare_engine.py:682-698 | reading a formatted valid date and time gives it back |
| EngineNames.FormatParse | compare_engine.py:682-698 | a stamp that parses is the formatted form of what it parses to |
| EngineNames.FormatChars | compare_engine.py:682 | a stamp holds no `.` and no `_` |
| EngineNames.RoundTrip | compare_engine.py:678-701 | parsing the built name of a file gives back its stem (or its name when the stem is empty) and the clock reading |
| EngineNames.ParseName | compare_engine.py:686-701 | a name built around a stamp with no `.` and no `_` parses to its base and the stamp's value |
| EngineNames.LastIndexAt | compare_engine.py:694 | the last separator is the one after which no other follows |
| EngineNames.StemPdf | compare_engine.py:689 | a name ending in `.pdf` has the rest as its stem |
| EngineNames.Rejects | compare_engine.py:689-700 | a stem not starting with `ECR-`, one without `_` after it, or a bad stamp gives nothing, and whatever parses came from a name of that form |
| EnginePixels.AxisSpanLaws | compare_engine.py:719-729 | on each axis the end lies past the start, within a positive page size |
| EnginePixels.MapLaws | compare_engine.py:704-733 | width and height are at least 1, and with positive bounds the pixel box lies inside the page |
| EnginePixels.MapUnbounded | compare_engine.py:714-723 | without bounds the start is the floor of the scaled corner |
| EnginePixels.PixelMapper.constructor | compare_engine.py:707 | a fresh mapper has no bounds |
| EnginePixels.PixelMapper.SetBounds | compare_engine.py:746 | the bounds become the given page size |
| EnginePixels.PixelMapper.ClearBounds | compare_engine.py:766-768 | the bounds are removed |
| EnginePixels.PixelMapper.Map | compare_engine.py:704-733 | the mapping of a rectangle under the mapper's current bounds |
| EnginePixels.MapAxis | compare_engine.py:714-729 | the statements for one axis compute that axis's span |
| EnginePixels.WordsToPixelBoxes | compare_engine.py:736-770 | the loop's boxes are the word-box specification under the page bounds, and the bounds are removed afterwards |
| EnginePixels.WordBoxesShape | compare_engine.py:748-765 | every word box has a stripped non-empty text, a box of positive size inside the page and a non-negative baseline, and there are no more boxes than entries |
| EnginePixels.StripIdempotent | compare_engine.py:754 | stripping twice strips no more |
| EngineRects.OverlapArea | compare_engine.py:1838-1842 | the overlap area is positive and no larger than either rectangle |
| EngineRects.ComputeIouLaws | compare_engine.py:1829-1846 | the IoU lies in [0, 1] and is positive exactly on an overlap of positive width and height |
| EngineRects.ComputeIouSym | compare_engine.py:1829-1846 | the IoU does not depend on the order of its arguments |
| EngineRects.TouchLaws | compare_engine.py:2560-2563 | touching is symmetric and, for rectangles of positive size, is an overlap of positive area |
| EngineRects.SharedEdgeNotTouch | compare_engine.py:2560-2563 | two unit squares sharing an edge do not touch |
| EngineRects.Reverse | compare_engine.py:2504 | the list read backwards |
| EngineRects.PopRefines | compare_engine.py:2487 | popping the last box keeps the same boxes in play |
| EngineRects.AbsorbRefines | compare_engine.py:2491-2498 | absorbing a touching box keeps every box inside some box in play |
| EngineRects.AbsorbTouching | compare_engine.py:2488-2501 | one scan keeps every input covered, only removes boxes, and reports a change exactly when it removed one |
| EngineRects.MergePass | compare_engine.py:2484-2503 | a pass keeps every input covered, never grows the list, shrinks it when it reports a change, and leaves no two boxes touching when it does not |
| EngineRects.MergeRectangles | compare_engine.py:2474-2505 | every input lies inside some output, there are no more outputs than inputs, no input gives no output, and no two outputs touch |
| EngineRects.Bounds | compare_engine.py:2549-2554 | the cluster's bounding box holds every member |
| EngineRects.Sweep | compare_engine.py:2526-2548 | a sweep only appends to the cluster, only marks more rectangles used, adds exactly the ones it marks, and reports a change exactly when it marked one |
| EngineRects.MergeCloseRectangles | compare_engine.py:2508-2557 | every input lies inside some output, there are no more outputs than inputs, no input gives no output, and no two outputs touch |
| EngineText.DropOverlappingRemovals | compare_engine.py:2234-2252 | both lists empty or either empty returns the removals unchanged; otherwise exactly the removals no addition overlaps at the threshold are kept, and kept plus dropped is the total |
| EngineText.UnopposedMembers | compare_engine.py:2247-2251 | a removal survives exactly when no addition overlaps it at the threshold |
| EngineText.Hits | compare_engine.py:2095 | the words overlapping the box at the word threshold, no more than the words |
| EngineText.CollectTextShape | compare_engine.py:2091-2096 | collected text is lower-cased with its whitespace collapsed |
| EngineText.CollectTextNoHits | compare_engine.py:2095-2096 | with no word overlapping the box nothing is collected |
| EngineText.TextsOf | compare_engine.py:2123-2124 | the collected text of each box, in order |
| EngineText.FirstPartner | compare_engine.py:2105-2133 | the partner is an unmatched added box at or after the start, and every earlier unmatched one fails to pair |
| EngineText.FindPartner | compare_engine.py:2105-2133 | the inner loop finds that first partner |
| EngineText.MatchBoxes | compare_engine.py:2098-2133 | the outer loop computes the matching specification |
| EngineText.SuppressIdenticalTextPairs | compare_engine.py:2076-2137 | the pair filter computes the suppression specification |
| EngineText.MatchCounts | compare_engine.py:2130-2132 | the matched sets hold indices of the two lists, one per pair |
| EngineText.MatchPairs | compare_engine.py:2111-2133 | every pair has equal-sized boxes within the shift and the same non-empty text, and no box is paired twice |
| EngineText.SuppressCounts | compare_engine.py:2084-2137 | the count is the number of boxes dropped from each list, and with either list empty both come back unchanged |
| EngineText.FilterRemoved | compare_engine.py:2162-2167 | the removals whose texts differ or are empty are kept, and kept plus dropped is the total |
| EngineText.FilterAdded | compare_engine.py:2169-2174 | the additions whose texts differ or are empty are kept, and kept plus dropped is the total |
| EngineText.FilterIdenticalTextRegions | compare_engine.py:2140-2176 | every region whose old and new text agree and are non-empty is dropped, and kept plus dropped is the total |
| EngineText.FilterMembers | compare_engine.py:2162-2174 | a region is kept exactly when its texts do not agree or are empty |
| Storage.PathJoin | compareset_env.py:18-33 | a joined path starts with its base |
| Storage.LocalRootsUnderBase | compareset_env.py:103-113 | with local storage every root lies under the local base directory |
| Storage.ServerRootsShared | compareset_env.py:114-124 | with server storage the history and output directories are both the server results root, and every root lies under the server root |
| Storage.RootsNonEmpty | compareset_env.py:97-124 | no chosen root is empty |
| CompareSetEnv.IsServerAvailable | compareset_env.py:60-66 | available exactly when the root is non-empty and exists |
| CompareSetEnv.DirsToCreateLaws | compareset_env.py:157-162 | every directory created is long-path prefixed and is the long form of some non-empty root, at most one per root, and every non-empty root gets its directory |
| CompareSetEnv.Env.constructor | compareset_env.py:25-55 | the import-time values: offline flags cleared, no override, empty roots |
| CompareSetEnv.Env.SetDevServerOverride | compareset_env.py:90-94 | the override is kept only in developer mode; nothing else changes |
| CompareSetEnv.Env.DetermineStoragePaths | compareset_env.py:97-124 | the roots become the local or the server roots; nothing else changes |
| CompareSetEnv.Env.SetConnectionState | compareset_env.py:127-137 | the override wins over the probe, offline is the negation of online, and local storage is used exactly when offline and in developer mode or an allowed user |
| CompareSetEnv.Env.EnsureDirectories | compareset_env.py:140-165 | nothing is created offline outside developer mode; otherwise the long form of every non-empty root |
| CompareSetEnv.ConnectionThenDirectories | compareset_env.py:127-165 | offline outside developer mode nothing is created; online all nine roots get a directory; with local storage every directory created is the long form of a path under the local base, with server storage of a path under the server root |
| CompareSetEnv.DirsAllNonEmpty | compareset_env.py:157-162 | with no empty root, one directory per root |
| ConfigEnv.IsTesterUser | config_env.py:45-46 | exactly the one allowed user is a tester |
| ConfigEnv.IsServerAvailable | config_env.py:56-62 | an empty or blank root is never available; otherwise availability is existence |
| ConfigEnv.Config.constructor | config_env.py:17-42 | the import-time values |
| ConfigEnv.Config.SetConnectionState | config_env.py:74-99 | online is the given state, offline its negation, and local roots are used exactly when offline and an allowed user |
| ConfigEnv.AgreesWithCompareSetEnv | config_env.py:74-99 | both modules choose the same roots when developer mode is off and no override is set |
| Extraction.PaintModeOf | src/compareset/core/extraction.py:35-43 | "both", "stroke", "fill" or none exactly by which of the stroke and fill colours are present |
| Extraction.ObjIdUnique | src/compareset/core/extraction.py:46 | two drawings of one page never share an id |
| Extraction.ExtractPageObjects | src/compareset/core/extraction.py:17-60 | the loop computes the object specification of the page |
| Extraction.ObjectsShape | src/compareset/core/extraction.py:31-58 | no more objects than drawings, and every painted drawing gives one |
| Extraction.IdsDistinct | src/compareset/core/extraction.py:46 | object ids are distinct within a page |
| Extraction.SeqOf | src/compareset/core/extraction.py:45-57 | every object comes from a painted drawing whose id, paint mode, box and hint it carries, with kind "path", the identity matrix and the page's stream reference |
| Extraction.IdsIncreasing | src/compareset/core/extraction.py:31-58 | later objects come from later drawings |
| Geometry.Trunc | compare_engine.py:714 | Python's `int()` on a float truncates toward zero: the integer lies within one of the value, on the side of zero |
| Geometry.Hull | compare7_gui.py:77-82 | the hull holds both boxes and lies inside every box that holds both |
| Geometry.HullR | compare_engine.py:2492-2497 | the same for point rectangles |
| Geometry.InterBound | src/compareset/compare.py:510-520 | the overlap area is never negative, positive exactly when both overlap sides are, and then no larger than either box |
| Geometry.InterSym | src/compareset/compare.py:510-516 | the overlap does not depend on argument order |
| Geometry.InterBoundR | pdf_diff.py:200-215 | the same for point rectangles |
| Greedy.FirstFree | pdf_diff.py:307-317 | the index the inner loop stops at: free, accepted, and every earlier index taken or refused |
| Greedy.GreedyMatch | pdf_diff.py:304-319 | one partner slot per element of the first list |
| Greedy.FirstFreeAt | pdf_diff.py:307-317 | a free accepted index with every earlier one taken or refused is the one found |
| Greedy.GreedyBounds | pdf_diff.py:304-319 | every partner is an accepted index of the second list, recorded as taken, and only indices of the second list are taken |
| Greedy.GreedyInjective | pdf_diff.py:308-315 | no index is taken twice, and there is one taken index per matched element |
| Greedy.GreedyGrows | pdf_diff.py:304-319 | the taken set only grows and earlier partners never change |
| Greedy.GreedyMaximal | pdf_diff.py:304-319 | an element left without a partner accepts no index still free at the end |
| Greedy.KeepLength | pdf_diff.py:321 | dropping the taken indices leaves the rest, counted exactly |
| Greedy.KeepMembers | pdf_diff.py:321 | what is kept is exactly the elements not dropped, as a subsequence of the input (in order) |
| Greedy.LostSubseq | pdf_diff.py:288-322 | the elements left unmatched form a subsequence of the input |
| Greedy.GreedyCounts | pdf_diff.py:304-322 | both sides lose the same number of elements |
| Greedy.GreedyDiagonal | pdf_diff.py:304-322 | a list matched against itself, each element accepting itself, cancels completely |
| Greedy.GreedyLeftovers | pdf_diff.py:304-322 | no element left over on one side accepts one left over on the other |
| Greedy.CancelLaws | pdf_diff.py:288-322 | both lists shrink by the same count, each kept list is a subsequence of its input, and no kept pair is acceptable |
| Greedy.NothingToMatch | pdf_diff.py:304-319 | against an empty list every element is lost |
| Greedy.SingletonMatch | pdf_diff.py:304-322 | one against one: both cancel when accepted, both stay otherwise |
| Greedy.FindFree | pdf_diff.py:307-317 | the loop finds the first free accepted index |
| Greedy.CancelPairs | pdf_diff.py:302-322 | the loops give the elements without a partner and the untaken elements, each in order |
| HistoryService.BuildEntryLaws | history_service.py:18-51 | an item builds an entry exactly when it is a dict holding every required field and only known fields; every field of the entry holds the item's value when the item names it and the default otherwise |
| HistoryService.EntryRoundTrip | history_service.py:51-59 | a saved entry loads back as itself |
| HistoryService.SomesLaws | history_service.py:48-53 | a value is kept exactly when present, and nothing is lost when all are present |
| HistoryService.EntriesLaws | history_service.py:48-53 | items that cannot build an entry are skipped and every other gives its entry |
| HistoryService.Ensured | history_service.py:34-38 | a missing file is created holding an empty list, an existing one is left alone |
| HistoryService.Loaded | history_service.py:41-54 | nothing when the file cannot be read, parsed or does not hold a list; otherwise the entries of its list |
| HistoryService.LoadSerialized | history_service.py:41-61 | loading what was saved gives the saved entries back |
| HistoryService.Apply | history_service.py:82-89 | exactly the given fields change |
| HistoryService.FirstJob | history_service.py:80-91 | the first entry with the job id, every earlier one having another |
| HistoryService.UpdateLaws | history_service.py:78-91 | the count stays and only the first entry of the job changes, getting exactly the given fields; with no such entry nothing changes |
| HistoryService.BuildHistoryEntry | history_service.py:123-130 | the new entry is pending, not released, without messages, holds the job, time and paths, and saves and loads back unchanged |
| HistoryService.HistoryStore.constructor | history_service.py:30-31 | the store starts with the given file |
| HistoryService.HistoryStore.EnsureStorage | history_service.py:34-38 | the file becomes its ensured form |
| HistoryService.HistoryStore.LoadHistory | history_service.py:41-54 | the file is ensured and the entries are the loaded ones |
| HistoryService.HistoryStore.SaveHistory | history_service.py:57-61 | the file holds the serialised entries |
| HistoryService.HistoryStore.AppendEntry | history_service.py:64-67 | the file holds the loaded entries followed by the new one |
| HistoryService.HistoryStore.UpdateEntryStatus | history_service.py:70-93 | with an entry of the job the file holds the updated entries; without one it is only created if missing |
| HistoryService.AppendLaws | history_service.py:64-67 | after an append the history loads as the earlier entries followed by the new one |
| HistoryService.UpdateLoads | history_service.py:70-93 | after an update the history loads as the updated entries |
| ImageOps.AlignImages | src/compareset/utils/image_ops.py:7-16 | both images come back unchanged with a zero shift |
| ImageOps.Iou | src/compareset/utils/image_ops.py:91-102 | a share in [0, 1], positive exactly when the boxes share area, though the union is not guarded |
| ImageOps.IouSym | src/compareset/utils/image_ops.py:91-102 | symmetric |
| ImageOps.IouSelf | src/compareset/utils/image_ops.py:91-102 | a box of positive area overlaps itself completely |
| ImageOps.IouAgrees | src/compareset/utils/image_ops.py:91-102 | this copy agrees with the raster engine's guarded copy on every pair |
| ImageOps.DiffMask | src/compareset/utils/image_ops.py:38 | shapes that do not broadcast are numpy's ValueError; otherwise the mask has the broadcast shape (a size-1 axis stretches) and a pixel is set exactly when the absolute difference of the broadcast operands is strictly above the threshold |
| ImageOps.SameShapeMask | src/compareset/utils/image_ops.py:38 | on rasters of one shape the broadcast mask is the plain pixelwise comparison, and identical rasters set no pixel |
| ImageOps.Regions | src/compareset/utils/image_ops.py:40-72 | the flood fill over a mask gives distinct tight components in scan order holding every set pixel, and a mask with no pixel set gives no region |
| ImageOps.FindDiffRegions | src/compareset/utils/image_ops.py:19-72 | shapes that do not broadcast are a ValueError; otherwise the components are distinct 8-connected sets of differing pixels of the broadcast mask that together hold all of them; each box is the tight box of its component, kept exactly when it reaches the area limit; identical images give no region |
| ImageOps.SortByArea | src/compareset/utils/image_ops.py:78 | a permutation sorted by decreasing area |
| ImageOps.Below | src/compareset/utils/image_ops.py:83-87 | exactly the boxes overlapping the current one less than the threshold, as a subsequence of the input (in order) |
| ImageOps.NmsMerge | src/compareset/utils/image_ops.py:75-88 | the loop computes the suppression specification, empty exactly for empty input |
| ImageOps.SuppressFixed | src/compareset/utils/image_ops.py:80-87 | a list with no two boxes overlapping enough is its own suppression |
| ImageOps.NmsShape | src/compareset/utils/image_ops.py:75-88 | what is kept comes from the input, largest area first, headed by a largest box, with no two boxes overlapping at the threshold |
| ImageOps.NmsIdempotent | src/compareset/utils/image_ops.py:75-88 | suppressing again changes nothing |
| Json.Get | server_io.py:46 | `dict.get` gives the stored value when the key is present and the default otherwise |
| Json.StrOf | user_check.py:63-65 | `str()` of a string is the string itself |
| Json.FloatOf | user_check.py:67 | `float()` converts integers, floats and booleans and refuses `None`, lists and dicts with a TypeError |
| Labeling.KeptSpec | src/compareset/compare.py:410-412 | exactly the boxes reaching the area limit are kept, as a subsequence of the input (in order) |
| Labeling.DisjointComponents | src/compareset/compare.py:389-409 | with every pixel visited once, no pixel belongs to two components |
| Labeling.FillStep | src/compareset/compare.py:399-409 | one turn of the stack loop keeps the fill invariant: found pixels are set, distinct, chained and unvisited before, and every popped pixel has its set neighbours found |
| Labeling.FillDone | src/compareset/compare.py:399-409 | when the stack is empty every set neighbour of the component is in it or was visited earlier |
| Labeling.FillPop | src/compareset/compare.py:400-409 | one turn of the fill loop keeps the invariant, mirrors the visited array and keeps the bounds tight |
| Labeling.Fill | src/compareset/compare.py:395-409 | the fill from a seed finds distinct, connected, set, previously unvisited pixels starting at the seed, marks them visited, closes over set neighbours and returns their tight box |
| Labeling.AddComponent | src/compareset/compare.py:391-412 | recording a new component keeps the scan invariant |
| Labeling.Advance | src/compareset/compare.py:392-394 | skipping a pixel that is clear or visited keeps the scan invariant |
| Labeling.NewComponent | src/compareset/compare.py:393-412 | an unvisited set pixel seeds a component whose box is recorded, and kept when it reaches the area limit |
| Labeling.Visit | src/compareset/compare.py:392-412 | one step of the row-major scan keeps the invariant |
| Labeling.ScanRow | src/compareset/compare.py:392-412 | scanning a row keeps the invariant |
| Labeling.ScanDone | src/compareset/compare.py:391-413 | after the last row every set pixel lies in exactly one closed 8-connected component, each with its tight box, and the kept boxes are those reaching the area limit |
| Labeling.LabelComponents | src/compareset/compare.py:386-413 | the flood fill labels the 8-connected components in scan order: they partition the set pixels, each is closed and connected with its tight box, and the kept boxes are those reaching the area limit |
| Labeling.TightInRaster | src/compareset/compare.py:410-412 | a component's tight box lies in the raster and holds at least one pixel |
| Labeling.KeptBoxes | src/compareset/compare.py:410-413 | every kept box is the tight box of some component, lies in the raster and reaches the area limit |
| LayoutDesigner.DropPx | developer_layout_designer.py:243 | removing every `px` never lengthens the text |
| LayoutDesigner.Braces | developer_layout_designer.py:235 | every brace becomes `;` and every other character stays |
| LayoutDesigner.CleanLaws | developer_layout_designer.py:235 | what is kept is stripped, not blank and made of characters of the pieces |
| LayoutDesigner.Tokens | developer_layout_designer.py:235 | no token is blank, has surrounding whitespace, or holds `;` or a brace |
| LayoutDesigner.ReadBorder | developer_layout_designer.py:253-261 | the inner loop reads the parts of a `border:` token |
| LayoutDesigner.ParseStyle | developer_layout_designer.py:233-266 | the loop computes the parsed fields of the style |
| LayoutDesigner.LastLaws | developer_layout_designer.py:236-265 | a field is set exactly when some token sets it, and then by the last one that does |
| LayoutDesigner.BorderLaws | developer_layout_designer.py:252-261 | a border token sets the width from its last integer `px` part and the colour from its last part that is not `px`, `border:` or `solid`, and nothing else |
| LayoutDesigner.StepFrame | developer_layout_designer.py:236-265 | a token's fields are laid over what was there |
| LayoutDesigner.RuleOfPrefixes | developer_layout_designer.py:237-252 | a token with a later prefix is read by that prefix's rule |
| LayoutDesigner.OwnFields | developer_layout_designer.py:237-265 | the fields one token sets, rule by rule |
| LayoutDesigner.FoldColors | developer_layout_designer.py:237-240 | colour and background hold the last value a token gives them |
| LayoutDesigner.FoldFonts | developer_layout_designer.py:241-251 | font size and boldness hold the last value a token gives them |
| LayoutDesigner.ColorLaw | developer_layout_designer.py:237-238 | colour is set exactly when some token starts with `color:` and lacks `hover`, to the value of the last such token |
| LayoutDesigner.BackgroundLaw | developer_layout_designer.py:239-240 | background is set exactly when some token starts with `background-color:` and lacks `hover`, to the value of the last such token |
| LayoutDesigner.FontSizeLaw | developer_layout_designer.py:241-245 | font size is set exactly when some `font-size:` token reads as an integer once `px` is dropped, to the last such integer |
| LayoutDesigner.BoldLaw | developer_layout_designer.py:246-251 | boldness is set exactly when some `font-weight:` token reads as an integer, and says whether the last such weight is at least 600 |
| LayoutDesigner.IgnoredTokens | developer_layout_designer.py:242-251 | a size or weight token that is not an integer changes nothing |
| LayoutDesigner.BuildStyle | developer_layout_designer.py:268-296 | no style at all exactly when no widget asks for a rule |
| LayoutDesigner.RulesMembers | developer_layout_designer.py:269-280 | the rules written are exactly those whose widget asks for them |
| LayoutDesigner.BorderRuleLaw | developer_layout_designer.py:278-280 | a border rule is written exactly when the width is positive, with the colour edit or `#000` |
| LayoutDesigner.BoldRuleLaw | developer_layout_designer.py:276-277 | the bold rule is written exactly when the box is checked, always as weight 600 |
| LayoutDesigner.SizeRuleLaw | developer_layout_designer.py:274-275 | a font-size rule is written exactly when the size is positive |
| LongPath.Prefixed | compare_engine.py:203-215 | every result carries the long-path prefix |
| LongPath.PrefixedCases | compare_engine.py:203-215 | a prefixed path is kept, a UNC path gets `\\?\UNC` in place of its leading `\`, and any other path gets `\\?\` in front |
| LongPath.PrefixedIdempotent | compare_engine.py:203-215 | prefixing a prefixed path changes nothing |
| LongPath.MakeLongPathIdempotent | config_env.py:65-71 | when `abspath` leaves prefixed paths alone, both versions are idempotent |
| LongPath.EnvAgrees | compareset_env.py:69-79 | the compareset_env.py version differs from the others only on the empty path, which it maps to the empty path |
| StyleRoundTrip.BuiltText | developer_layout_designer.py:268-296 | for a plain base colour and hover colour the designer writes the base rule, then the hover block holding the colour, `hover-color:` and an empty `hover-background:` |
| StyleRoundTrip.TokensOfBuilt | developer_layout_designer.py:268-296 | that text splits into the base rule, the selector and the three rules of the hover block |
| StyleRoundTrip.ColorToken | developer_layout_designer.py:237-238 | a written `color:` rule is read as a colour whose value is the colour |
| StyleRoundTrip.HoverTextToken | developer_layout_designer.py:262-263 | a written `hover-color:` rule is read as the hover text colour |
| StyleRoundTrip.SelectorToken | developer_layout_designer.py:236-265 | the selector sets nothing |
| StyleRoundTrip.HoverBackgroundToken | developer_layout_designer.py:264-265 | an empty `hover-background:` rule sets an empty hover background |
| StyleRoundTrip.FoldAppend | developer_layout_designer.py:236-265 | the loop over two runs of tokens is the loop over the second from where the first ended |
| StyleRoundTrip.ParsedBuilt | developer_layout_designer.py:233-296 | reading back the written style gives the hover colour as colour and as hover text, and an empty hover background |
| StyleRoundTrip.HoverColorOverwritesBase | developer_layout_designer.py:235-240 | as written, reading back a saved style with a hover colour fills the colour edit with the hover colour |
| StyleRoundTrip.RedBecomesBlue | developer_layout_designer.py:235-240 | base `red` with hover `blue` reads back as colour `blue` |
| StyleRoundTrip.Blocks | developer_layout_designer.py:235 | a style splits into at least one block |
| StyleRoundTrip.InnerFoldLaw | developer_layout_designer.py:236-265 | inside a block the colour and background are kept and every other field is read as before |
| StyleRoundTrip.ScopedAgrees | developer_layout_designer.py:233-266 | a style without braces is read exactly as before |
| StyleRoundTrip.BuiltBlocks | developer_layout_designer.py:289-296 | the written text is the base rules, the hover block and an empty tail |
| StyleRoundTrip.OuterTokens | developer_layout_designer.py:271-294 | the block outside the braces holds the base rule and the selector |
| StyleRoundTrip.InnerTokens | developer_layout_designer.py:283-294 | the hover block holds its colour, `hover-color:` and `hover-background:` |
| StyleRoundTrip.ScopedRoundTrip | developer_layout_designer.py:233-296 | the corrected reading gives back the base colour and the hover colour as written, with an empty hover background |
| Mvp.ZoomFromDpi | compareset_mvp.py:72-73 | the zoom times 72 is the DPI: pixels per PDF point |
| Mvp.Letterbox | compareset_mvp.py:92-115 | both fresh canvases have the larger height and width, hold each image at its centred offset with 0 (black) elsewhere, and report the offsets and the original sizes |
| Mvp.KeepLarge | compareset_mvp.py:143-147 | a contour box is kept exactly when its pixel area reaches the minimum area; nothing else is added |
| Mvp.MergeTwo | compareset_mvp.py:170-179 | the merge holds both rectangles and lies inside every rectangle that holds both (the least enclosing box) |
| Mvp.TouchMergeSym | compareset_mvp.py:151-179 | the overlap-or-touch test is symmetric and merging two rectangles commutes |
| Mvp.Absorb | compareset_mvp.py:195-202 | the inner loop keeps the length of the marks, never unmarks or touches earlier marks, keeps a merge once seen, and each new merge marks one more rectangle |
| Mvp.PassFrom | compareset_mvp.py:191-204 | the output of a pass grows by at most the unmarked rectangles left, one fewer when the pass merged |
| Mvp.Pass | compareset_mvp.py:188-205 | a pass that merges something returns a strictly shorter list |
| Mvp.MergeTouching | compareset_mvp.py:182-206 | repeating passes while one merges never lengthens the list, so the loop terminates |
| Mvp.AbsorbLoop | compareset_mvp.py:195-202 | the imperative inner `for j` loop computes the inner-loop specification |
| Mvp.PassOnce | compareset_mvp.py:188-205 | one run of the outer loop body computes the pass specification: the new list and the merged flag |
| Mvp.MergeTouchingRects | compareset_mvp.py:182-206 | the `while merged` loop returns the fixpoint of the passes |
| Mvp.AbsorbLaws | compareset_mvp.py:195-202 | during the inner loop the growing rectangle only gets larger and every rectangle it marks lies inside the final one |
| Mvp.PassQuiet | compareset_mvp.py:187-205 | a pass that merges nothing returns its input, and then no two of its rectangles touch |
| Mvp.PassCovers | compareset_mvp.py:191-205 | after a pass every input rectangle lies inside some output rectangle |
| Mvp.MergeLaws | compareset_mvp.py:182-206 | in the result no two rectangles touch, every input lies inside some output, and the empty list maps to itself |
| Mvp.ClipBox | compareset_mvp.py:209-230 | None exactly when the box, shifted by the page's letterbox offset, misses the page; otherwise the intersection with the page, which has positive size for a positive box on a positive page |
| Mvp.LocalBoxes | compareset_mvp.py:309-319 | the boxes of one page are the present results of clipping each merged box to the page, in the merged boxes' order, so never more than the merged boxes |
| Mvp.ToPoints | compareset_mvp.py:239-247 | each corner in points times the zoom is the corner in pixels |
| Mvp.PixelsToPdfRects | compareset_mvp.py:233-248 | a zero zoom is a ZeroDivisionError; otherwise one rectangle in points per pixel box, in order |
| Mvp.MapToPage | compareset_mvp.py:309-319 | the imperative clipping loop computes the page's clipped boxes |
| Mvp.CompareFirstPages | compareset_mvp.py:267-326 | the contour boxes are area-filtered and merged once, and each page gets that merged list clipped to its offset and size and converted to points |
| Normalize.PointsInBox | src/compareset/utils/normalize.py:38-46 | the box made from the minimum and maximum coordinates holds every point of a drawing |
| Normalize.Include | src/compareset/utils/normalize.py:56 | `include_rect`: an empty operand changes nothing, the result holds every non-empty operand and is non-empty when the added one is |
| Normalize.ZeroPoints | src/compareset/utils/normalize.py:45-47 | item points all at the origin give the all-zero box, which is false |
| Normalize.DrawingBoxLaws | src/compareset/utils/normalize.py:35-48 | a true rect is kept; a missing or all-zero rect is replaced by the item-point box holding every point; the drawing contributes nothing exactly when every item point is the origin; what it contributes is a true Rect |
| Normalize.UnionAllHolds | src/compareset/utils/normalize.py:52-57 | with the in-place union ignoring empty rectangles and replacing an empty accumulator, the union holds every non-empty box, is non-empty exactly when some box is, and is the first box when every box is empty |
| Normalize.UnionAllLeast | src/compareset/utils/normalize.py:52-57 | when some box is non-empty, the union lies inside every rectangle that holds all the non-empty boxes, so it is the least one |
| Normalize.CollectPoints | src/compareset/utils/normalize.py:38-44 | the imperative loops over drawing items collect exactly the points that have two or more coordinates |
| Normalize.ContentBbox | src/compareset/utils/normalize.py:31-57 | the imperative collection (a drawing's rect when true, else its item-point box when true) and the in-place union compute the content-box specification |
| Normalize.ContentBboxLaws | src/compareset/utils/normalize.py:31-57 | there is a content box exactly when there is a text block or a drawing contributing a box; it holds every non-empty text block and drawing box, and is non-empty exactly when one of them is |
| Normalize.DrawingRectsKept | src/compareset/utils/normalize.py:35-48 | every box a drawing contributes is collected, and every collected drawing box is the box of some drawing |
| Normalize.ContentBboxLeast | src/compareset/utils/normalize.py:52-57 | a content box with a non-empty part lies inside any rectangle holding every non-empty text block and drawing box |
| Normalize.RuleBesideBlock | src/compareset/utils/normalize.py:52-57 | a zero-height rule beside a text block gives the text block's box alone |
| Normalize.ZeroRectDropped | src/compareset/utils/normalize.py:37-48 | a drawing with `Rect(0, 0, 0, 0)` and no item points contributes no box |
| Normalize.PlacePage | src/compareset/utils/normalize.py:73-90 | an empty target box gives scale 1 at the origin onto the reference page; otherwise the scale is the smaller of the two ratios and the destination has the target page's size times the scale |
| Normalize.PlacePageCentres | src/compareset/utils/normalize.py:78-84 | the scaled target content box is centred on the reference content box |
| Normalize.PlacePageFits | src/compareset/utils/normalize.py:78-84 | with positive sizes the scaled target content box fits inside the reference content box |
| Normalize.PlacePageExample | src/compareset/utils/normalize.py:78-80 | content boxes 100 and 80 points wide give the scale 1.25 |
| Normalize.ContentOrRectLaws | src/compareset/utils/normalize.py:70-71 | with a non-empty text block or drawing box the content box is used and holds the non-empty text blocks; a missing content box falls back to the page rect, and so does an all-zero one |
| Normalize.NormalizePages | src/compareset/utils/normalize.py:60-97 | an error exactly when an empty document must supply a `[-1]` page, or the target has fewer pages than the reference; otherwise one reference-sized page and one transform per index up to the larger page count |
| PdfDiff.ValidateTransforms | pdf_diff.py:86-97 | the imperative validation loop reports the first bad transform, or none |
| PdfDiff.TransformsLaws | pdf_diff.py:86-97 | the transforms pass exactly when each is a sequence of 4 to 6 numbers; otherwise the error is a ValueError for a bad shape or a TypeError for a non-number |
| PdfDiff.TransformExamples | pdf_diff.py:88-97 | three values raise ValueError; a string among five values raises TypeError |
| PdfDiff.Tag | pdf_diff.py:493-500 | one record per box of a page result, in order, carrying the page number, the box and the text |
| PdfDiff.PageResults | pdf_diff.py:487-492 | one page comparison per index below the larger page count, with an empty list standing in for a missing page |
| PdfDiff.TagAllQuiet | pdf_diff.py:487-500 | pages that each report nothing give no records |
| PdfDiff.TagAllPages | pdf_diff.py:487-500 | every record carries the page it came from and a box of that page's result |
| PdfDiff.CountAll | pdf_diff.py:487-491 | `verificados` counts every box of both documents exactly once |
| PdfDiff.ComparePass | pdf_diff.py:484-500 | the imperative page loop of one pass yields that pass's raw records and counts every box of both documents |
| PdfDiff.RoundHalfEven | pdf_diff.py:299 | `round` gives an integer within one half of its argument and picks the even one on a tie |
| PdfDiff.RoundInt | pdf_diff.py:299 | an integer rounds to itself |
| PdfDiff.RemoveUnchanged | pdf_diff.py:288-322 | the imperative loops compute the unchanged-pair filter specification |
| PdfDiff.RemoveMovedSameText | pdf_diff.py:325-379 | the imperative loops compute the small-move filter specification |
| PdfDiff.UnchangedLaws | pdf_diff.py:288-322 | pairs cancel one to one, so both lists shrink by the same count; each list left is a subsequence of its input; no record left on one side is unchanged with respect to one left on the other |
| PdfDiff.UnchangedSelf | pdf_diff.py:288-322 | the same list on both sides cancels completely |
| PdfDiff.UnchangedExamples | pdf_diff.py:296-317 | an identical box cancels; a box moved by one whole unit stays on both sides |
| PdfDiff.MovedSym | pdf_diff.py:354-370 | the small-move test is symmetric |
| PdfDiff.MovedShift | pdf_diff.py:354-370 | a record shifted by at most `dist` on each axis, with the same page and text, counts as a small move |
| PdfDiff.MovedNeedsText | pdf_diff.py:356 | records whose stripped texts differ never cancel |
| PdfDiff.MovedPairCancels | pdf_diff.py:351-379 | a record and a small move of it cancel each other |
| PdfDiff.MovedLaws | pdf_diff.py:325-379 | pairs cancel one to one; each list left is a subsequence of its input; no small move is left between the two sides |
| PdfDiff.MovedWord | pdf_diff.py:325-379 | a text box moved by one point cancels when `dist` is 2 |
| PdfDiff.MovedShape | pdf_diff.py:325-379 | a shape moved by a third of a point cancels when `dist` is 1 |
| PdfDiff.Steps | pdf_diff.py:470-473 | counts exactly the grid values 1.0, 0.95, ... that are at least the threshold |
| PdfDiff.ThresholdValues | pdf_diff.py:468-477 | the imperative `while val >= thr` loop computes the threshold schedule |
| PdfDiff.ScheduleLaws | pdf_diff.py:468-477 | the schedule fails (an IndexError at `thr_values[-1]`) exactly in adaptive mode with a threshold above 1; otherwise it starts at 1.0 (adaptive) or is just the threshold, decreases strictly in 0.05 steps except for a smaller last step, stays at or above the threshold and ends at it |
| PdfDiff.ComparePdfs | pdf_diff.py:466-531 | a schedule error is passed on; otherwise every box is counted once and the result is that of the threshold passes, stopping when a pass repeats the previous keys or reports nothing |
| PdfDiff.IterateIsAPass | pdf_diff.py:484-528 | with thresholds, the result is the result of one of the passes, never the empty start |
| PdfDiff.IterateStopsOnEmpty | pdf_diff.py:527-528 | a first pass that reports nothing ends the loop with nothing reported |
| PdfDiff.NonAdaptive | pdf_diff.py:476-477 | without adaptive mode the result is the single pass at the threshold |
| PdfDiff.SelfCompare | pdf_diff.py:382-531 | a document compared with itself reports nothing when all its boxes have positive area and the first threshold is at most 1 |
| PdfDiff.SelfPage | pdf_diff.py:254-285 | a page compared with itself reports nothing under the same conditions |
| PdfEdit.Strokes | src/compareset/core/pdf_edit.py:21 | every match position lies below the bound |
| PdfEdit.StrokesExact | src/compareset/core/pdf_edit.py:21 | the positions are exactly the stand-alone `S` operators below the bound, each once, in increasing order |
| PdfEdit.SpliceUndo | src/compareset/core/pdf_edit.py:76-78 | the splice puts `q r g b RG` before the chosen `S` and a `Q` after it; removing the two insertions gives back the stream |
| PdfEdit.PyIndex | src/compareset/core/pdf_edit.py:72-75 | Python list indexing: valid exactly from minus the length up to the length, counting from the end for a negative index |
| PdfEdit.InjectOutcomes | src/compareset/core/pdf_edit.py:45-80 | nothing is recoloured exactly when the mode only fills, no stroke colour is given, the page has no contents or the ordinal is at or past the stroke count; an IndexError exactly when the ordinal is below minus the count |
| PdfEdit.InjectSplice | src/compareset/core/pdf_edit.py:65-80 | on success the page has contents, the mode strokes, and the ordinal-th stroke of the first stream is the one spliced |
| PdfEdit.InjectIgnoresFill | src/compareset/core/pdf_edit.py:50-80 | the fill colour has no effect |
| PdfEdit.ColorFor | src/compareset/core/pdf_edit.py:38 | a removed target gets the removed colour, every other target the added colour |
| PdfEdit.PageErrorSticks | src/compareset/core/pdf_edit.py:37-40 | once a target raises, later targets change nothing: the page gives the same error |
| PdfEdit.PageSnoc | src/compareset/core/pdf_edit.py:37-40 | processing one more target applies it to the streams left by the earlier ones and adds one success when it is recoloured |
| PdfEdit.RecolorPage | src/compareset/core/pdf_edit.py:35-41 | the imperative target loop of one page computes the page specification |
| PdfEdit.PageBounds | src/compareset/core/pdf_edit.py:35-41 | successes never exceed the targets, and only the first content stream is edited |
| PdfEdit.FillOnlyUnchanged | src/compareset/core/pdf_edit.py:60-61 | targets that only fill leave the page unchanged with no successes |
| PdfEdit.StrokesExample | src/compareset/core/pdf_edit.py:21 | a two-path stream has its strokes at positions 2 and 6 |
| PdfEdit.RecolorFirstStroke | src/compareset/core/pdf_edit.py:24-80 | with two strokes and the first targeted as removed, only the first is wrapped, in the removed colour |
| PdfEdit.DocErrorSticks | src/compareset/core/pdf_edit.py:34-41 | once a page raises, later pages change nothing |
| PdfEdit.RecolorTargets | src/compareset/core/pdf_edit.py:24-42 | the imperative page loop computes the document specification |
| PdfEdit.DocBounds | src/compareset/core/pdf_edit.py:34-41 | the page count is kept and each page's successes are at most its targets |
| PdfOps.PxToPdf | src/compareset/utils/pdf_ops.py:17-24 | every converted rectangle lies within the page rectangle: its low corner at or above the page origin and its high corner at or below the page's far corner |
| PdfOps.PxToPdfInside | src/compareset/utils/pdf_ops.py:17-23 | a pixel box inside the page maps linearly to the page origin plus the pixels times 72/dpi |
| PdfOps.PxToPdfRects | src/compareset/utils/pdf_ops.py:16-25 | a zero DPI is a ZeroDivisionError; otherwise one clamped rectangle per pixel box, keeping length and order |
| PdfSvg.ComparePdfs | pdf_svg_compare.py:92-104 | one entry per page index below the larger page count, each the greedy comparison of that page's boxes at IoU 0.9, with an empty list for a missing page |
| PdfSvg.MissingPage | pdf_svg_compare.py:97-103 | a page only the old document has reports all its boxes removed; a page only the new one has reports all its boxes added |
| PdfSvg.DigitEnd | pdf_svg_compare.py:160 | the end of the longest run of digits from a position |
| PdfSvg.TokenAt | pdf_svg_compare.py:160 | the match at a position is non-empty and well formed: an optional `-`, digits, and a fraction only when a digit follows the dot |
| PdfSvg.FindTokens | pdf_svg_compare.py:160 | every match `re.findall` returns is well formed |
| PdfSvg.UnsignedParses | pdf_svg_compare.py:161 | the unsigned part of a match reads as its whole part plus its fraction part |
| PdfSvg.TokenSign | pdf_svg_compare.py:161 | reading the sign of a match leaves its unsigned part |
| PdfSvg.TokenParses | pdf_svg_compare.py:161 | `float` of a match never fails |
| PdfSvg.FloatsOf | pdf_svg_compare.py:161 | a successful `map(float, ...)` keeps the number of tokens |
| PdfSvg.Texts | pdf_svg_compare.py:160 | the text of each match, in order |
| PdfSvg.FloatsOfTokens | pdf_svg_compare.py:161 | converting well-formed matches to floats never fails |
| PdfSvg.NumbersParse | pdf_svg_compare.py:160-166 | reading the numbers of an attribute never fails and gives one number per match |
| PdfSvg.Evens | pdf_svg_compare.py:161 | `nums[0::2]`: the elements at even places, in order |
| PdfSvg.Odds | pdf_svg_compare.py:162 | `nums[1::2]`: the elements at odd places, in order |
| PdfSvg.MinSeq | pdf_svg_compare.py:164 | `min` is an element at or below every element |
| PdfSvg.MaxSeq | pdf_svg_compare.py:164 | `max` is an element at or above every element |
| PdfSvg.RectOf | pdf_svg_compare.py:147-152 | a rect has a box exactly when all four numbers read, with its origin at (x, y) and its far corner at (x + w, y + h) |
| PdfSvg.LineOf | pdf_svg_compare.py:153-158 | a line has a box exactly when all four numbers read; the box spans the two end points |
| PdfSvg.BboxNamespace | pdf_svg_compare.py:145 | the namespace in front of a tag is dropped, so it does not change the box |
| PdfSvg.LastIndexRight | pdf_svg_compare.py:145 | the local name of a tag starts after its last `}` |
| PdfSvg.PointsHold | pdf_svg_compare.py:159-170 | the box of alternating numbers exists exactly when at least two numbers are given; it is well formed and holds every x between `x0` and `x1` and every y between `y0` and `y1` |
| PdfSvg.PointsAttr | pdf_svg_compare.py:159-170 | a polyline, polygon or path has a box exactly when its attribute holds at least two numbers |
| PdfSvg.OtherTags | pdf_svg_compare.py:144-173 | tags other than rect, line, polyline, polygon and path have no box |
| PdfSvg.KeyIndex | pdf_svg_compare.py:179-183 | the first position of a key in the insertion-ordered dictionary, or its length when absent |
| PdfSvg.Keys | pdf_svg_compare.py:188 | the keys of the style dictionary, in insertion order |
| PdfSvg.KeyIndexAt | pdf_svg_compare.py:179-183 | the first position holding a key is the position found |
| PdfSvg.PutLaws | pdf_svg_compare.py:183-187 | after an assignment the key holds the new value, the other keys keep theirs, and a new key goes at the end of the order |
| PdfSvg.KeyIndexPut | pdf_svg_compare.py:183-187 | assigning one key does not move another |
| PdfSvg.RecolorLaws | pdf_svg_compare.py:184-187 | recolouring keeps the keys and their order, gives `stroke` the colour when present, gives `fill` the colour unless it is `none`, and keeps every other value |
| PdfSvg.StyleAttrsLaws | pdf_svg_compare.py:176-193 | with a non-empty `style` only that attribute changes; without one the attribute names are kept, `stroke` takes the colour when present, `fill` takes it when present and not `none`, and everything else is kept |
| PdfSvg.SvgNode.constructor | pdf_svg_compare.py:144-145 | a node holds the given tag and attributes |
| PdfSvg.SvgNode.StyleSet | pdf_svg_compare.py:176-193 | `_style_set` keeps the tag and rewrites the attributes as the style specification says |
| PdfSvg.CheckMode | pdf_svg_compare.py:267-268 | only "overlay" and "split" pass; any other mode is the ValueError with its message |
| Presets.WithOverrides | src/compareset/presets.py:19-32 | each given colour replaces its own field and the absent ones keep the scheme's colours |
| Presets.WithOverridesLaws | src/compareset/presets.py:19-32 | overriding nothing gives back the same scheme, and applying the same overrides twice changes nothing more |
| Presets.Copy | src/compareset/presets.py:72-73 | each named field takes its override and every other field keeps its value |
| Presets.CopyNothing | src/compareset/presets.py:72-73 | a copy without overrides equals the original |
| Presets.ParamsToDict | src/compareset/presets.py:58-70 | all ten fields under their own names, in declaration order, each with its own value |
| Presets.ParamKeysDistinct | src/compareset/presets.py:58-70 | the ten keys are distinct, so the dictionary has ten entries |
| Presets.PresetOrder | src/compareset/presets.py:100-158 | the presets go strict > balanced > loose on absdiff threshold, minimum area and DPI, and each is filed under its own name |
| Presets.GetPreset | src/compareset/presets.py:161-165 | found exactly when the lower-cased name is a preset, giving that preset; otherwise a KeyError naming the name |
| Presets.GetPresetCaseInsensitive | src/compareset/presets.py:161-165 | a name and its lower-case form give the same answer |
| Presets.GetPresetUpper | src/compareset/presets.py:161-165 | "STRICT" finds the strict preset |
| Presets.GetPresetUnknown | src/compareset/presets.py:163-164 | an unknown name such as "medium" is an error |
| Presets.ParseHexPair | src/compareset/presets.py:182 | `int(pair, 16)` of a two-character string, when it reads, lies between -15 and 255 |
| Presets.ParseHexColor | src/compareset/presets.py:179-183 | a length other than 6 or 8 is a ValueError; a successful read gives each channel strictly above -1 and at most 1 |
| Presets.Scale | src/compareset/presets.py:188-190 | channels all at most 1 are kept as given; if any exceeds 1, all are divided by 255; channels between 0 and 255 end in [0, 1] |
| Presets.ParseSeparatedColor | src/compareset/presets.py:184-187 | anything but exactly three comma- or semicolon-separated parts is a ValueError |
| Presets.ParseColor | src/compareset/presets.py:172-190 | None or blank input gives None; after stripping, a leading `#` succeeds exactly when the hex form reads and then gives its colour, and otherwise the separated form decides in the same way |
| Presets.HexColor | src/compareset/presets.py:178-183 | six hex digits, with or without two alpha characters after them, give each byte divided by 255, in [0, 1] |
| Presets.HexBadDigit | src/compareset/presets.py:182 | a character among the first six that is not a hex digit, whitespace or a sign is a ValueError |
| Presets.ParseBlank | src/compareset/presets.py:175-177 | a blank string gives None |
| RasterDiff.FillRows | pdf_raster_diff.py:57-60 | the rows of the band become 255 and every other pixel is unchanged |
| RasterDiff.FillCols | pdf_raster_diff.py:61-64 | the columns of the band become 255 and every other pixel is unchanged |
| RasterDiff.BandLaws | pdf_raster_diff.py:56-64 | along one axis, a pixel lies in the painted band exactly when its source index falls outside the image; elsewhere the roll does not wrap |
| RasterDiff.PaintedShift | pdf_raster_diff.py:56-64 | painting both bands over the rolled image leaves exactly the shifted image |
| RasterDiff.ShiftImage | pdf_raster_diff.py:53-65 | the result has the image's shape, and each pixel is the source pixel (y + dy, x + dx) when that lies in the image and 255 otherwise, for every shift |
| RasterDiff.Unwrap | pdf_raster_diff.py:91-94 | a correlation peak past the middle of an axis wraps to a negative shift, so the shift lies in (n/2 - n, n/2] |
| RasterDiff.AlignImages | pdf_raster_diff.py:68-137 | a ValueError exactly when the shapes differ or the image is empty; otherwise the first image's copy and the second shifted by the unwrapped peak, with rotation 0 and scale 1 |
| RasterDiff.Iou | pdf_raster_diff.py:145-158 | this file's IoU agrees with the raster engine's IoU on every pair of boxes |
| RasterDiff.IouLaws | pdf_raster_diff.py:145-158 | IoU is symmetric, lies in [0, 1], and is positive exactly when the boxes overlap with positive area |
| RasterDiff.Nms | pdf_raster_diff.py:161-171 | the imperative loops compute the suppression specification |
| RasterDiff.KeptShape | pdf_raster_diff.py:161-171 | the kept boxes are a subsequence of the input, keep the first input, and no kept pair has IoU above the threshold |
| RasterDiff.KeptCovers | pdf_raster_diff.py:163-170 | every dropped box overlaps some kept box with IoU above the threshold |
| RasterDiff.KeptSeparated | pdf_raster_diff.py:161-171 | a list with no pair above the threshold passes unchanged |
| RasterDiff.NmsIdempotent | pdf_raster_diff.py:161-171 | suppressing the output again changes nothing |
| RasterDiff.LargeBoxes | pdf_raster_diff.py:209-213 | a box is in the result exactly when it is the rectangle of some contour bound of at least the minimum area; every box has at least that area |
| RasterDiff.LargeBoxesAppend | pdf_raster_diff.py:209-213 | the loop over contours distributes over concatenation: the boxes of two runs of contours are the boxes of each, in order |
| RasterDiff.RegionsFromContours | pdf_raster_diff.py:187-215 | without OpenCV a RuntimeError; otherwise the area-filtered contour boxes after suppression |
| RasterDiff.PxToPdf | pdf_raster_diff.py:235-243 | every converted rectangle lies within the page rectangle |
| RasterDiff.PxToPdfInside | pdf_raster_diff.py:235-243 | a box whose scaled image lies on the page is only scaled by 72/dpi, with no page-origin offset |
| RasterDiff.PxToPdfRects | pdf_raster_diff.py:223-244 | a zero DPI is a ZeroDivisionError; otherwise one clamped rectangle per pixel box, keeping length and order |
| RasterDiff.DropTitle | pdf_raster_diff.py:334-343 | a rectangle is kept exactly when it does not strictly overlap the title-block mask |
| RasterDiff.DropTitleAppend | pdf_raster_diff.py:334-343 | the filter decides box by box and keeps the order |
| RasterDiff.DropTitleSubseq | pdf_raster_diff.py:334-343 | the filter's output is a subsequence of its input |
| RasterDiff.ProcessPage | pdf_raster_diff.py:309-359 | the imperative page body computes the page's rectangles, with none for a page that raised |
| RasterDiff.RasterGuided | pdf_raster_diff.py:284-378 | the imperative loop over the shared pages computes the all-pages specification |
| RasterDiff.RasterLaws | pdf_raster_diff.py:305-359 | one entry per page both documents have; old and new record the same rectangles; the count is the list length; a failing page records nothing and counts zero; every rectangle lies on the old page |
| RasterDiff.PageRectsAll | pdf_raster_diff.py:345-347 | without the title filter each pixel box of a page gives exactly one rectangle, in order |
| RasterDiff.CompareAllPages | pdf_raster_diff.py:410-425 | succeeds exactly for the engine "raster_guided", with the raster-guided result; any other name is a ValueError naming it |
| SetGui.CenterOnCanvas | compare_set_gui.py:67-74 | a fresh canvas of the asked size, white (255) except the image copied in at ((W - w) // 2, (H - h) // 2), and that offset |
| SetGui.Canvases | compare_set_gui.py:196-202 | both canvases have the larger width and height, and each render is centred on its own |
| SetGui.TouchLaws | compare_set_gui.py:118-123 | the touch test is symmetric and, for well-formed boxes, holds exactly when the closed boxes share a point, so a shared edge counts |
| SetGui.FirstTouch | compare_set_gui.py:137-138 | the first index from the start position whose box touches the current one, none before it touching |
| SetGui.Insert | compare_set_gui.py:136-147 | a merge keeps the length; otherwise the box is appended; no merge happens exactly when no result box touches the current one |
| SetGui.Drain | compare_set_gui.py:133-148 | a pass with a merge shortens the list; a pass without one keeps its length |
| SetGui.MergeFrom | compare_set_gui.py:126-149 | passes never lengthen the list, so the loop ends, and the empty list maps to itself |
| SetGui.InsertBox | compare_set_gui.py:137-147 | the imperative `for ... break` loop computes one insertion |
| SetGui.MergeBoxes | compare_set_gui.py:126-149 | the imperative `while changed` loop computes the merge specification |
| SetGui.InsertLaws | compare_set_gui.py:136-147 | an insertion keeps the current box and every earlier box covered, and stays inside any region holding them all |
| SetGui.DrainLaws | compare_set_gui.py:133-148 | a pass keeps every box of its work list covered and stays inside any region holding them; a pass without merges leaves no two boxes touching |
| SetGui.MergeLaws | compare_set_gui.py:126-149 | no two output boxes touch, every input lies inside some output, there are no more outputs than inputs, and outputs stay inside any region holding the inputs |
| SetGui.Localize | compare_set_gui.py:160-167 | a kept box has positive size and is the largest box inside both the moved box and the page; a box is dropped exactly when no box of positive area lies inside both |
| SetGui.MapBoxes | compare_set_gui.py:152-168 | the mapped boxes are exactly the localised boxes that survive, none added and never more than the input |
| SetGui.MapBoxesAppend | compare_set_gui.py:152-168 | mapping a concatenation maps each part, so the order is kept |
| SetGui.MapBoxesToPage | compare_set_gui.py:152-168 | the imperative loop computes the mapped boxes |
| SetGui.ToPoints | compare_set_gui.py:53 | each coordinate in points times 300 is the pixel coordinate times 72 |
| SetGui.ToPointsWithin | compare_set_gui.py:250-256 | scaling to points keeps containment |
| SetGui.PageRectsInside | compare_set_gui.py:234-275 | every rectangle drawn lies on its page, in points, and has positive width and height |
| SetGui.RunCompare | compare_set_gui.py:185-275 | a ValueError for an old or new document without pages, in that order; otherwise the rectangles drawn on each first page, from its merged boxes mapped with its centring offset |
| Sorting.Insert | src/compareset/compare.py:322 | insertion adds exactly the one element |
| Sorting.SortBy | src/compareset/compare.py:322 | the sorted list is a permutation of the input |
| Sorting.InsertSorted | src/compareset/compare.py:322 | inserting into a sorted list keeps it sorted under a total preorder |
| Sorting.HeadBelow | src/compareset/compare.py:322 | every element inserted after the head of a sorted list comes after that head |
| Sorting.SortBySorted | src/compareset/compare.py:322 | the result is sorted, so with the permutation it is the sorted rearrangement |
| Sorting.StrLeTotal | user_check.py:81 | string order is total |
| Sorting.StrLeTrans | user_check.py:81 | string order is transitive |
| Sorting.StrLeAntisym | user_check.py:81 | string order is antisymmetric |
| Sorting.InsertLast | src/compareset/compare.py:322 | an element that comes after everything goes at the end, so equal keys keep their input order |
| Sorting.SortBySame | src/compareset/compare.py:322 | sorting an already sorted list changes nothing |
| Sorting.FilterSubseq | src/compareset/utils/image_ops.py:83-87 | filtering a list keeps a subsequence of it, in order |
| Text.Lower | server_io.py:47 | `str.lower()` keeps the length |
| Text.LowerIdempotent | server_io.py:47-50 | lower-casing twice is lower-casing once |
| Text.TrimLeft | pdf_diff.py:275 | the left-stripped text is no longer and does not start with whitespace |
| Text.TrimRight | pdf_diff.py:275 | the right-stripped text is no longer and does not end with whitespace |
| Text.TrimLeftSuffix | pdf_diff.py:275 | what left-stripping keeps is a suffix of the text |
| Text.TrimRightPrefix | pdf_diff.py:275 | what right-stripping keeps is a prefix of the text |
| Text.Strip | pdf_diff.py:275 | `str.strip()` is no longer and neither starts nor ends with whitespace |
| Text.StripNoSpace | pdf_diff.py:275 | a text without whitespace at either end strips to itself |
| Text.IndexOf | pdf_svg_compare.py:181-182 | the first position of the character, none before it, or the length when absent |
| Text.LastIndex | pdf_svg_compare.py:145 | `str.rfind`: the last position of the character, none after it, or -1 |
| Text.FracValue | src/compareset/presets.py:187 | the value of fraction digits lies in [0, 1] |
| Text.ParseFloatMantissa | src/compareset/presets.py:187 | `float` succeeds on a signed decimal without an exponent |
| Text.FloatOfDigits | src/compareset/presets.py:187 | a plain digit string reads as its decimal value |
| Text.ParseFloats | src/compareset/presets.py:187 | a successful conversion gives one number per part |
| Text.Split | src/compareset/presets.py:184 | `str.split(sep)` gives at least one piece and no piece holds the separator |
| Text.ReplaceChar | src/compareset/presets.py:184 | `str.replace` of one character replaces exactly its occurrences and keeps the length |
| Text.ParseInt | auto_updater.py:30 | `int` succeeds only on optional whitespace, an optional sign and at least one digit |
| Text.NatToString | auto_updater.py:30 | `str(n)` is digits without a leading zero |
| Text.NatToStringValue | auto_updater.py:30 | the printed digits read back as the number |
| Text.ParseIntDigits | auto_updater.py:30 | a plain digit string reads as its decimal value |
| Text.ParseIntNat | auto_updater.py:30 | `int(str(n)) == n` |
| Text.NatToStringInjective | auto_updater.py:30 | different numbers print differently |
| Text.IntToString | auto_updater.py:30 | `str(n)` of an integer starts with a minus exactly when it is negative |
| Text.IntToStringInjective | auto_updater.py:30 | different integers print differently |
| Text.WordsFromAreWords | compare_engine.py:2092 | every piece the split collects is a non-empty word without whitespace |
| Text.WordsAreWords | compare_engine.py:2092 | every piece `str.split()` gives is a word |
| Text.JoinWordsCollapsed | compare_engine.py:2092 | joining words with one space gives collapsed whitespace, and a non-empty text for a non-empty list |
| Text.WordsFromNoUpper | compare_engine.py:2092 | splitting text without capitals gives words without capitals |
| Text.JoinNoUpper | compare_engine.py:2092 | joining words without capitals gives a text without capitals |
| Text.NoUpperSlice | compare_engine.py:2092 | a slice of a text without capitals has none |
| Text.StripNoUpper | compare_engine.py:2092 | stripping keeps a text free of capitals |
| Text.NormalizeTextShape | compare_engine.py:2091-2092 | normalised text has no capitals and its whitespace is collapsed to single spaces between words |
| UserCheck.LoadData | user_check.py:39-48 | nothing fetched or an empty document is the RuntimeError; otherwise the document's keys plus "users" and "admins" |
| UserCheck.ToRecord | user_check.py:61-69 | building a record fails exactly when `float` rejects the "added" value |
| UserCheck.ToRecordDefaults | user_check.py:62-68 | missing texts are empty, a missing "active" is true, a missing "added" is 0, string names and float dates are kept, and a rejected "added" raises its error |
| UserCheck.Clean | user_check.py:58-69 | a non-dict entry gives no record; a dict gives its record or its error |
| UserCheck.Collect | user_check.py:58-70 | the records are never more than the entries |
| UserCheck.CollectLaws | user_check.py:58-70 | the records are collected exactly when no entry fails, and they are exactly the records the entries yield |
| UserCheck.CollectAppend | user_check.py:58-70 | records come out in list order |
| UserCheck.RecordsPrefixOk | user_check.py:58-70 | a prefix of entries that collect without error also collects without error |
| UserCheck.Records | user_check.py:57-70 | the records of a list are never more than its entries |
| UserCheck.RecordsLaws | user_check.py:57-70 | a list loads exactly when each dict on it builds its record, and then the records are those of its dicts, non-dicts skipped |
| UserCheck.LoadUserRecords | user_check.py:51-70 | a failed load raises; a "users" value that is not a list gives no records; a list gives the records of its dicts |
| UserCheck.ActiveNames | user_check.py:77 | a name is listed exactly when an active record carries it |
| UserCheck.AdminNames | user_check.py:78-80 | an "admins" list gives `str` of each entry, in order; anything else gives nothing |
| UserCheck.Dedup | user_check.py:81 | `set`: the same members, each once |
| UserCheck.AtMostOnce | user_check.py:81 | a list without repeats holds each element at most once |
| UserCheck.CountedTwice | user_check.py:81 | an element at two positions is counted twice |
| UserCheck.StrLePreorder | user_check.py:81 | string order is a total preorder |
| UserCheck.Allowed | user_check.py:77-81 | sorted in string order with no name twice, holding a name exactly when an active record carries it or it is an admin |
| UserCheck.SortedSet | user_check.py:81 | sorting a list without repeats keeps its members and orders them strictly |
| UserCheck.LoadUsers | user_check.py:73-81 | a failed load raises; otherwise the names allowed by the loaded records and the admins |
| UserCheck.IsAdmin | user_check.py:113-117 | a failed load raises; otherwise true exactly when "admins" is a list holding the name |
| UserCheck.ShortRecord | user_check.py:62-68 | a dict with only a name and an active flag gets empty texts and date 0 |
| UserCheck.CollectOne | user_check.py:58-70 | one good entry gives its one record |
| UserCheck.SampleRecords | user_check.py:51-70 | a document with "a" active and "b" inactive gives those two records, both dated 0 |
| UserCheck.SampleLoad | user_check.py:73-81 | that document's names with access come from its active records and its admin |
| UserCheck.SampleAdmin | user_check.py:113-117 | that document's admin "c" is an admin |
| UserCheck.SampleListing | user_check.py:73-117 | with that document the names with access are exactly "a" and "c", and "c" is an admin |
| UserCheck.SampleAllowed | user_check.py:77-81 | the active record "a" and the admin "c" are allowed and the inactive "b" is not |
| UserCheck.NamesSnoc | user_check.py:89 | the names of a table are those before its last record plus the last record's |
| UserCheck.Position | user_check.py:89-100 | where a name sits in the table, no earlier record carrying it, or the length when absent |
| UserCheck.Upsert | user_check.py:89 | assigning by name keeps one record per name, adds the new name, holds the new record, and keeps every record of another name |
| UserCheck.Keyed | user_check.py:89 | keying the records gives one record per name, exactly the records' names, each record taken from the records |
| UserCheck.Activate | user_check.py:90-100 | after one step the name is in the table and active; a known record keeps its other fields; an unknown name gets a new record dated now |
| UserCheck.ActivateAll | user_check.py:90-100 | the first loop keeps one record per name |
| UserCheck.ActivateAllNames | user_check.py:90-100 | after the loop the table holds exactly its old names and the requested ones |
| UserCheck.ActivateAllFlags | user_check.py:90-100 | after the loop every requested name is active, and records of names not requested are the table's own, all kept |
| UserCheck.ActivateAllFields | user_check.py:90-100 | after the loop a record of a known name keeps everything but its flag, and a record of a new name is a new record |
| UserCheck.Mark | user_check.py:101-103 | every record keeps its place; those whose name was not requested become inactive and the others are unchanged |
| UserCheck.Locate | user_check.py:91 | the linear search finds the name's position |
| UserCheck.PutRecord | user_check.py:92-98 | the imperative assignment computes the keyed update |
| UserCheck.ActivateName | user_check.py:90-100 | the imperative step computes one activation |
| UserCheck.SaveUsers | user_check.py:84-107 | the imperative `save_users` computes the saved document |
| UserCheck.KeyRecords | user_check.py:89 | the imperative keying computes the keyed table |
| UserCheck.ActivateNames | user_check.py:90-100 | the imperative first loop computes the activations |
| UserCheck.MarkUnlisted | user_check.py:101-103 | the imperative second loop computes the deactivations |
| UserCheck.PermutedDistinct | user_check.py:105 | permuting a table keeps one record per name |
| UserCheck.MarkNames | user_check.py:101-103 | marking changes flags only: names and one record per name stay |
| UserCheck.TableMerged | user_check.py:89-103 | the table the loops leave meets the merge rules |
| UserCheck.TableRecords | user_check.py:89-103 | each record of that table has the flag and fields the merge rules require |
| UserCheck.PermutedMerged | user_check.py:105 | the merge rules do not depend on the order of the records |
| UserCheck.SaveLaws | user_check.py:84-107 | the saved users obey the merge rules and are ordered by date, and the admins are the ones loaded |
| UserCheck.AddedPreorder | user_check.py:105 | ordering by "added" is a total preorder |
| VectorMatch.Iou | pdf_diff.py:200-215 | IoU lies in [0, 1] and is positive exactly when the overlap has positive area |
| VectorMatch.IouSym | pdf_diff.py:200-215 | IoU is symmetric |
| VectorMatch.IouSelf | pdf_diff.py:200-215 | a box of positive area has IoU 1 with itself |
| VectorMatch.IouOffsetSquares | pdf_diff.py:200-215 | two 2x2 squares offset by one give 1/7 |
| VectorMatch.IouOffsetTens | pdf_diff.py:200-215 | two 10x10 squares offset by five give 25/175 |
| VectorMatch.IouDisjoint | pdf_diff.py:200-215 | disjoint boxes give 0 |
| VectorMatch.ComparePairs | pdf_diff.py:254-285 | the imperative matching loop and the leftover new items compute the page comparison specification |
| VectorMatch.ReportedCovers | pdf_diff.py:267-284 | every unmatched old item and both halves of a matched pair with differing texts are reported |
| VectorMatch.ReportedWithin | pdf_diff.py:267-284 | the reported lists hold only old and new items |
| VectorMatch.ReportedNone | pdf_diff.py:275-284 | nothing is reported when every old item is matched to a new one with equal text |
| VectorMatch.PairLaws | pdf_diff.py:254-285 | every old item without a partner is removed, every new item left untaken is added, both items of a matched pair with differing texts are reported, and nothing else appears |
| VectorMatch.PairIdentity | pdf_diff.py:254-285 | a page compared with itself reports nothing when its boxes have positive area, the threshold is at most 1 and no text differs from itself |
| VectorMatch.MissingPage | pdf_diff.py:488-492 | against an empty page every box of the other page is reported, and nothing else |
| VectorMatch.AllLostReported | pdf_diff.py:280-281 | old items that all lack a partner are all removed |
| VectorMatch.ComparePlain | pdf_svg_compare.py:69-89 | the imperative box-only matching loop computes its specification |
| VectorMatch.PlainLaws | pdf_svg_compare.py:69-89 | both lists lose the same number of boxes, each result is a subsequence of its input, and no removed box overlaps an added one by the threshold or more |
| VectorMatch.PlainMissingPage | pdf_svg_compare.py:97-103 | a missing page reports all boxes of the other one |
| VectorMatch.PlainIdentity | pdf_svg_compare.py:69-89 | a page compared with itself reports nothing when its boxes have positive area and the threshold is at most 1 |
| ServerIo.LoadRemoteJson | server_io.py:21-36 | a named source whose payload is a JSON object gives that object's fields; no source, an unreadable source or a non-object gives the empty dict |
| ServerIo.LoweredStrings | server_io.py:46 | a list gives its string items lower-cased, non-strings skipped; a null, boolean or number raises TypeError |
| ServerIo.CheckAccessAllowed | server_io.py:39-52 | no source allows the session as unavailable; an empty list allows it as unavailable; otherwise the lower-cased name is authorized exactly when it is on the lower-cased list, and refused otherwise |
| ServerIo.AccessLaws | server_io.py:39-52 | access is refused exactly when a non-empty list was loaded without the lower-cased name; names equal up to case get the same answer; a missing or non-object document allows the session |
| ServerIo.ListedAnyCase | server_io.py:46-51 | a name on the list in lower case is authorized whatever the case it is typed in |

## Left out

- PDF and image I/O through PyMuPDF is not modelled. Opening, rasterising, drawing highlights, writing PDFs, SVGs and JSON are side effects with no logic of their own; their inputs and outputs are values here.
- OpenCV, SSIM, FFT phase correlation and ECC alignment are not modelled; they are foreign numeric libraries. `RasterDiff.AlignImages` takes the correlation peak as a parameter. Candidate boxes from `_find_candidate_boxes` and cv2 contours are also passed in (`compare_set_gui.py`, `compareset_mvp.py`, `pdf_raster_diff.py`).
- The Qt windows, dialogs and worker threads are not modelled; they are GUI plumbing. Only the geometry and style logic inside them is modelled.
- SQLite, HTTP, the GitHub release API and file shares are not modelled; they are external services. Loaded documents, or their absence, are parameters.
- `auth.py` `_load_data` and `_save_data` (file I/O) are not modelled. `is_master` (105-112) and `log_access` (115-133) read a file and append to a log, and are also not modelled. The PBKDF2 hash, base64 and the random salt are uninterpreted functions, and round-trip only as far as base64 decoding undoes encoding.
- `auto_updater.py` download and apply (67-95) are not modelled; they are network and file-replacement I/O.
- `server_io.py` `fetch_version_manifest`, `download_binary`, `persist_server_log` and `send_released_pdf` (55-109) are not modelled; they are network and file I/O.
- `user_check.py` `load_admins` (120-126) and `save_user_records` (129-139) only read or write files, and are not modelled.
- `history_service.py` `clear_history_and_temp` and `temp_dir_for_job` are not modelled; they only remove or create directories.
- `config_env.py` `ensure_server_directories` is not modelled; it only creates directories.
- `os.path.abspath`, the clock, the machine identifier and the environment constants (such as `ACCESS_CONTROL_PATH`) are parameters of the operations that read them.
- Python floats are modelled as exact reals. Rounding of IoU, scale and coordinate arithmetic is not captured.
- The adaptive IoU schedule of `pdf_diff.py` is modelled as exact multiples of 0.05 in reals (`PdfDiff.Grid`). The binary floating-point drift of repeatedly subtracting 0.05 is not captured.
- `Json.StrOf` renders only strings, integers, booleans and null. For floats, lists and dicts it gives the empty string, because Python's `repr` of those is not modelled.
- `Text.ParseInt`: Python's `int()` accepts `_` digit separators. It also reads any non-ASCII Unicode decimal digit as its ASCII digit (`int("١٢")` is 12), and it strips Unicode whitespace, not only ASCII whitespace. The model does none of these: it takes ASCII `0`-`9` and ASCII whitespace only, and gives no value for such inputs. The gap reaches `Cli.ParseRoi` (`--ignore-roi "p١:0,0,10,10"` is page 0 in the source and a ValueError in the model), `AutoUpdater.VersionTuple` and the integer reads of `LayoutDesigner.ParseStyle`.
- `Text.ParseFloat`: Python's `float()` also accepts `inf`, `infinity` and `nan` in any case and with a sign, `_` digit separators, non-ASCII Unicode decimal digits and Unicode whitespace around the number. The model accepts only finite decimals with an optional exponent, because reals have no infinities or NaN. So `Presets.ParseSeparatedColor` rejects `"nan,0,0"`, which the source accepts as a colour with a NaN channel. The same inputs are rejected by `Json.FloatOf`, `UserCheck.ToRecord` and the SVG number reads of `PdfSvg`.
- `Presets.ParseHexPair`: Python's `int(pair, 16)` also reads non-ASCII Unicode decimal digits as their ASCII digits (`int("١f", 16)` is 31). The model takes only ASCII hex digits, so `Presets.ParseHexColor` and `Presets.ParseColor` reject a colour such as `#١f0000` that the source accepts.
- `PdfSvg.DigitEnd`: the SVG number scanner treats only ASCII `0`-`9` as digits, while Python's `\d` in `re` also matches other Unicode decimal digits. The same applies to `PdfSvg.TokenAt`.
- `Auth.CheckPassword`: a stored hash that is not valid base64 makes `check_password` raise `binascii.Error`. The model treats `b64decode` as a total function and does not model that exception.
- `ComparePage.ComparePdfs`: when OpenCV is present, `_resize_raster` uses `cv2.resize`, a foreign call. The model has only the numpy nearest-index fallback (`ComparePage.ResizeRaster`), with `np.linspace` computed in exact reals. An empty old raster facing a differently shaped new one is modelled as numpy's broadcast ValueError. numpy can still broadcast such a raster when the new one has a single row or column, and the model does not capture that.
- `Text.Lower`: lower-casing is ASCII-only, with no Unicode case folding.
- `Text.Strip`: stripping is ASCII-only, with no Unicode whitespace.
- `EngineNames.ParseResultFilename` accepts the timestamp only in its zero-padded 15-character form. `strptime` also accepts unpadded fields.
- `Cli.OverrideParams`: `CompareParams.copy` raises TypeError when `--touch-gap`, `--contain-eps` or `--min-box-area` is given (`__main__.py:107-109`), because `touch_gap_px`, `contain_eps_px` and `min_box_area_px` are not fields. The model returns that error exactly then (`Cli.OverrideLaws`), but not Python's full message text.
- `pdf_raster_diff.py` result assembly is not fully modelled. The region's `area_pts2`, the echoed parameters and the elapsed time are left out. `draw_highlight_rects`, `export_marked_pdfs_all_pages`, `save_diff_json` and `rasterize_page` are I/O.
- `pdf_svg_compare.py` `recolor_svg`, `generate_recolored_svgs` and `export_svgs` walk and write an XML tree, and are not modelled. Their per-element parts are modelled (`PdfSvg.ElementBbox`, `PdfSvg.SvgNode.StyleSet`). Also left out are the image composition in `generate_colored_comparison` and the `differences.json` write.
- `presets.py` `iter_presets` is not modelled separately: it is the table's values. `ColorScheme.to_dict` and `Preset.to_dict` are not modelled.
- `pdf_diff.py` `_load_pdf_without_signatures`, the ISO-size warning of `_get_standard_label` and the progress and cancel callbacks are not modelled. Of `_extract_bboxes`, only the transform validation is modelled; the box extraction itself is PyMuPDF.
- `normalize.py` `show_pdf_page` and the metadata copy are not modelled (PyMuPDF I/O). Neither is the logging in `pdf_edit.py`.
- Normalize.Include: PyMuPDF's infinite rectangle, which `include_rect` treats specially, is not modelled. Page and drawing rectangles are finite.
- Normalize.PlacePage: PyMuPDF's `Rect.width` and `height` are never negative. The model takes `x1 - x0` and `y1 - y0`. These differ only on an inverted content box, which the union yields only when every collected box is empty and the first is inverted.
- `comparador.py` and `backend.py` `generate_highlighted_pdf` write a PDF, and are not modelled.
- `LayoutDesigner`: laws about several style rules with the same key are stated on the last occurrence. Qt itself applies the last one, and the model does not render.
- `StyleRoundTrip.ScopedRoundTrip`: the corrected round trip is proved for base colour plus hover text style strings. The scoped parser does not model nested braces.

## Findings

| source | as written | input that shows it | evidently intended | confidence | as-written member | corrected member |
|---|---|---|---|---|---|---|
| developer_layout_designer.py:235-240 | `_parse_style` splits the whole string on `;` and `:`. The `color:` inside the `QPushButton:hover { ... }` block that `_build_style` emits (292-295) overwrites the base `color`. Re-opening the dialog (206-215) then shows the hover colour as the text colour. | base text colour `red`, hover text colour `blue` | parsing a built style gives back `color` `red` and the hover colour `blue` separately | not executed | StyleRoundTrip.HoverColorOverwritesBase, StyleRoundTrip.RedBecomesBlue | StyleRoundTrip.ScopedRoundTrip |
