# RecImg slide extraction, modelled in Dafny

RecImg pulls slides out of a lecture video. It walks the frames and keeps one
whenever the summed grayscale pixel difference to the previous frame exceeds
`umbral` and more than `min_distancia` frames have passed since the last kept
one. Each kept frame is written as `diapositiva_<k>.jpg`. A second pass then
deletes near-duplicate images from the output folder. It visits the images
in sorted name order, and each image deletes every later image that scores
above a threshold against it.

The repository has three variants of this, and each becomes one module:

- `ExtraerImagenes` (`extraer_imagenes.dfy`) models `extraer_imagenes.py`:
  - the selection loop, proved against the `Saves` function;
  - the pipeline that runs the sweep after extraction;
  - the histogram sweep, which never checks that a file still exists. The
    model says exactly when that sweep reads a file it deleted itself and
    fails, and what the folder holds at that point.
- `DistExtraerImagenes` (`dist_extraer_imagenes.dfy`) models
  `dist/extraer_imagenes.py`:
  - the selection loop with its face filter, text filter and perceptual-hash
    seen-set. A rejected candidate leaves the loop body with `continue`, so
    it advances neither the previous frame nor the frame counter;
  - the SSIM sweep. It skips missing later images but reads the row's own
    image without a check;
  - the script's two calls.
- `EliminarRepetidas` (`eliminar_repetidas.dfy`) models
  `eliminar_repetidas.py`. Its SSIM sweep checks both images for existence
  and always completes.

Shared pieces:

- `Metrics` and `Video` (`metrics.dfy`): frames, the change score, decoder
  output and the extraction result.
- `Names` (`names.dfy`): file names, Python's string order, sorting, and
  directory listing.
- `Texto` (`texto.dfy`): `str.strip` and the "more than five characters"
  text rule.
- `KeepEarliest` (`keep_earliest.dfy`): the reference definition all three
  sweeps are proved against. In it, image k survives exactly when no earlier
  surviving image scores above the threshold against it (`IsKept`/`Dominated`).

The model takes these as inputs:

- The decoder's frames: a `Source` that either cannot be opened or holds a
  sequence of colour/grayscale frame pairs.
- The similarity score: a function of two file names.
- The face detector, the OCR and the perceptual hash: function parameters.

The folder is a set of names. `os.listdir` returns those names in an
arbitrary order (`ListDir`).

## Model

| member | source | states |
|---|---|---|
| Metrics.DiffScore | extraer_imagenes.py:36-37 | the change score (sum of per-pixel absolute differences) is never negative |
| Metrics.DiffScoreSymmetric | extraer_imagenes.py:36-37 | the score does not depend on which frame comes first |
| Metrics.DiffScoreZeroIff | extraer_imagenes.py:36-37 | the score is zero exactly when the two frames are identical |
| Metrics.DiffScoreBound | extraer_imagenes.py:36-37 | the score is at most 255 per pixel, so it is not normalised to the resolution |
| ExtraerImagenes.Saves | extraer_imagenes.py:34-49 | every saved frame index lies in [1, n): frame 0 is never saved, because there is no previous frame yet |
| ExtraerImagenes.SavedIff | extraer_imagenes.py:40 | frame f is saved iff f >= 1, its score against frame f-1 is strictly above umbral, and f minus the last earlier save is strictly above min_distancia |
| ExtraerImagenes.SavesPrefix | extraer_imagenes.py:25-49 | later frames never change an earlier decision: the saves among the first m frames are a prefix of those among the first n |
| ExtraerImagenes.SavesSpacing | extraer_imagenes.py:23-45 | saved frame indices strictly increase and consecutive ones differ by more than min_distancia |
| ExtraerImagenes.SavesLowerBound | extraer_imagenes.py:23-40 | with min_distancia >= 0, the k-th save is at frame 1 + k*(min_distancia+1) or later |
| ExtraerImagenes.SecondFrameEligible | extraer_imagenes.py:37-40 | before any save the distance test always passes (`last_saved_frame` starts at `-min_distancia`), so frame 1 is saved exactly when its difference from frame 0 exceeds umbral |
| ExtraerImagenes.UnchangedFrameNotSaved | extraer_imagenes.py:40 | a frame identical to its predecessor is never saved when umbral >= 0 |
| ExtraerImagenes.FlickerScenario | extraer_imagenes.py:40-45 | a black/white flicker with min_distancia 1 saves frames 1, 3 and 5 |
| ExtraerImagenes.SlidesOfAppend | extraer_imagenes.py:41-44 | a new save appends one slide, named after the number of earlier saves |
| ExtraerImagenes.SeleccionarDiapositivas | extraer_imagenes.py:20-49 | the loop counts every frame (frame_count ends at the number of frames), writes exactly SlidesOf(Saves), and saved_count is the number of files written |
| ExtraerImagenes.SlidesAreSwept | extraer_imagenes.py:41-63 | every slide file written is among the images the sweep processes |
| ExtraerImagenes.ExtraerDiapositivasMejorado | extraer_imagenes.py:14-55 | an unopenable video writes and sweeps nothing; otherwise the slides are written, the folder gains exactly their names, and the sweep (threshold 0.9) completes iff no early row matches, leaving the reference pass result |
| ExtraerImagenes.HistCrashIff | extraer_imagenes.py:66-80 | the histogram sweep fails iff some row other than the last finds a duplicate; the failure is then pinned to the first such row and image |
| ExtraerImagenes.FirstDirtyRow | extraer_imagenes.py:66-78 | a row that deletes has a first deleting row at or before it |
| ExtraerImagenes.FirstHit | extraer_imagenes.py:71-78 | a deleting row has a first image it deletes |
| ExtraerImagenes.HistPassRemoves | extraer_imagenes.py:66-81 | when the sweep completes, the reference pass deletes only what the last row (image n-2) deletes |
| ExtraerImagenes.CleanRowBefore | extraer_imagenes.py:67-72 | a row that finds all its files present shows that the previous row deleted nothing |
| ExtraerImagenes.OwnImageGone | extraer_imagenes.py:66-68 | a row whose own image the previous row deleted fails at once: the previous row is the first that deletes, this row's image is its first hit, and the folder holds what that row deleted so far |
| ExtraerImagenes.CrashInRow | extraer_imagenes.py:67-80 | a row that meets a missing file meets the first file the previous row deleted |
| ExtraerImagenes.CompararHistogramas | extraer_imagenes.py:71-81 | one row deletes the later images above the threshold until it meets a missing file, and reports that file; the count grows by the files deleted |
| ExtraerImagenes.EliminarImagenesRepetidas | extraer_imagenes.py:57-83 | over the sorted ".jpg" names, the sweep completes iff no early row matches, leaving the reference result with eliminadas = files deleted; otherwise it fails reading the first file it deleted, with the folder as left by that point |
| ExtraerImagenes.BarrerHistogramas | extraer_imagenes.py:66-81 | the nested loops: completed iff NoEarlyMatch, and then folder minus Removed; on failure the named file is the first deleted one |
| DistExtraerImagenes.Run | dist/extraer_imagenes.py:31-81 | once a previous frame exists, it has the video's resolution |
| DistExtraerImagenes.StepKeepsInvariant | dist/extraer_imagenes.py:41-81 | one loop iteration keeps the loop invariant, and frame_count plus the skipped candidates grows by one per frame read |
| DistExtraerImagenes.SaveKeepsInvariant | dist/extraer_imagenes.py:71-77 | a write under a new hash keeps names by position, filters passed, the hash set equal to the written hashes, the hashes pairwise distinct, and the spacing |
| DistExtraerImagenes.SpacedAppend | dist/extraer_imagenes.py:55-77 | a save that passed the distance test keeps the saves spaced and becomes last_saved_frame |
| DistExtraerImagenes.HashesAppend | dist/extraer_imagenes.py:71-74 | adding a slide adds its hash; a hash not yet in the set keeps the hashes pairwise distinct |
| DistExtraerImagenes.RunKeepsInvariant | dist/extraer_imagenes.py:31-81 | after any prefix: saved_count = files written, each written under its position's name, no face and text on each, no repeated hash, spaced saves, last_saved_frame the last save, and frame_count + skipped = frames read |
| DistExtraerImagenes.RejectedCandidateKeepsBase | dist/extraer_imagenes.py:55-81 | a candidate with a face or without text changes only the skip count: prev_frame and frame_count stay as they were |
| DistExtraerImagenes.SeenHashKeepsWindow | dist/extraer_imagenes.py:71-77 | a frame whose hash was already written changes no file, no hash, saved_count or last_saved_frame |
| DistExtraerImagenes.HashesGrowOnlyOnWrites | dist/extraer_imagenes.py:71-74 | the hash set changes iff a file is written, and then by that image's hash |
| DistExtraerImagenes.FaceSkipScenario | dist/extraer_imagenes.py:57-81 | for any OCR that finds text on the third frame: after a skipped face frame, the next frame is compared with the frame before the skipped one and is written although it equals the skipped frame |
| DistExtraerImagenes.StepWritesIff | dist/extraer_imagenes.py:49-77 | a frame is written iff there is a previous frame, diff_score > umbral, the distance test holds, it shows no face, it has text, and its hash is not in saved_hashes |
| DistExtraerImagenes.RunWritesVideoFrames | dist/extraer_imagenes.py:48-81 | every written image is the colour frame of a frame read so far whose difference from an earlier frame exceeded umbral, and prev_frame is always a frame already read |
| DistExtraerImagenes.ExtraerDiapositivasMejorado | dist/extraer_imagenes.py:22-82 | an unopenable video gives VideoNotOpened; otherwise the result is the loop's final state (so which frames are written is StepWritesIff applied frame by frame), every written image is a colour frame of the video that differed from an earlier frame by more than umbral, and the written slides are named by position, passed both filters, have pairwise distinct hashes, are spaced by more than min_distancia, and frame_count is at most the number of frames |
| DistExtraerImagenes.Ejecutar | dist/extraer_imagenes.py:130-138 | an opened video is extracted exactly as the loop run with umbral 100000 and min_distancia 30 leaves it, then sweeps the folder with threshold 0.95, also when the video did not open |
| DistExtraerImagenes.CompararFila | dist/extraer_imagenes.py:110-126 | one row fails iff its image is gone and some later image is still there; otherwise it deletes the later images above the threshold (none when its image is gone) |
| DistExtraerImagenes.EliminarImagenesRepetidas | dist/extraer_imagenes.py:102-128 | over the sorted ".jpg" names, the sweep completes iff no row is stale, then leaving the reference result with the matching count; otherwise it fails at the first stale row, reading that row's image |
| DistExtraerImagenes.SsimRowStart | dist/extraer_imagenes.py:110-118 | when row i starts, its image is present iff it is kept, and the row fails iff it is stale: its image is gone and some later image is still present |
| DistExtraerImagenes.BarrerSsim | dist/extraer_imagenes.py:110-126 | the nested loops: completed iff no stale row, then folder minus Removed; on failure the folder is as the earlier rows left it |
| Texto.TrimStart | dist/extraer_imagenes.py:100 | the result is a suffix of the input, everything removed is whitespace, and it does not start with whitespace |
| Texto.TrimEnd | dist/extraer_imagenes.py:100 | the result is a prefix of the input, everything removed is whitespace, and it does not end with whitespace |
| Texto.ContieneTextoIff | dist/extraer_imagenes.py:94-100 | the OCR text counts iff it holds two non-whitespace characters at least five positions apart (stripped length > 5) |
| Texto.TitleIsText | dist/extraer_imagenes.py:100 | a six-character title such as "Tema 1" counts as text |
| Texto.BlankIsNotText | dist/extraer_imagenes.py:100 | whitespace-only OCR output never counts as text |
| EliminarRepetidas.EliminarImagenesRepetidas | eliminar_repetidas.py:5-42 | the sweep over the sorted ".jpg"/".png" names leaves exactly the reference pass result, and total_eliminadas is the number of files deleted |
| EliminarRepetidas.CompararFila | eliminar_repetidas.py:23-40 | one row deletes exactly the later images still present that score strictly above the threshold, each once, and counts them |
| KeepEarliest.KeptIff | eliminar_repetidas.py:17-40 | an image is deleted iff some earlier surviving image scores strictly above the threshold against it |
| KeepEarliest.DominatedWitness | eliminar_repetidas.py:23-37 | "dominated" means that one of the kept images before position i scores above the threshold |
| KeepEarliest.KeptPairsDissimilar | eliminar_repetidas.py:17-39 | no two surviving images score above the threshold |
| KeepEarliest.AllKept | eliminar_repetidas.py:37 | with no pair above the threshold, nothing is deleted |
| KeepEarliest.PassResultSpec | eliminar_repetidas.py:13-40 | the pass only deletes; names without an image suffix stay; a listed image survives iff it is kept; the first image in sorted order always survives |
| KeepEarliest.InRemoved | eliminar_repetidas.py:17-40 | an image is removed by the pass iff it is not kept |
| KeepEarliest.RowStartState | eliminar_repetidas.py:17-25 | when row i starts, its image is present iff kept, and a later image is present iff not yet dominated |
| KeepEarliest.KeptRow | eliminar_repetidas.py:23-40 | the row of a kept image deletes exactly its later images above the threshold on top of what was deleted before |
| KeepEarliest.GoneRowRemovesNothing | eliminar_repetidas.py:18-19 | a row whose image is already gone deletes nothing |
| KeepEarliest.ColumnStep | eliminar_repetidas.py:23-40 | one inner step adds image j to the deleted set iff row i's image is kept and their score is above the threshold |
| KeepEarliest.RowEnd | eliminar_repetidas.py:17-23 | finishing row i is starting row i+1 |
| KeepEarliest.AfterLastRow | dist/extraer_imagenes.py:110 | rows past the second-to-last image delete nothing, so stopping at len-2 loses nothing |
| KeepEarliest.DistinctCard | eliminar_repetidas.py:38-40 | a deletion log without repeats has as many entries as files deleted |
| KeepEarliest.LogDeletion | eliminar_repetidas.py:38-40 | deleting a present file extends the log without repeats |
| KeepEarliest.AppendLog | eliminar_repetidas.py:17-40 | the rows' deletion logs add up to the pass's deletions |
| KeepEarliest.SurvivorsSpec | eliminar_repetidas.py:14-39 | the survivors are exactly the kept images and stay in sorted order |
| KeepEarliest.SurvivorsDissimilar | eliminar_repetidas.py:17-39 | survivors listed in order are pairwise at or below the threshold |
| KeepEarliest.NextListingIsSurvivors | eliminar_repetidas.py:13-14 | listing the folder after a pass yields exactly the survivors in sorted order |
| KeepEarliest.PassIdempotent | eliminar_repetidas.py:17-40 | a second pass over the folder a pass left deletes nothing |
| Names.NatToStringRoundTrip | extraer_imagenes.py:41 | the decimal counter in a file name reads back as the counter |
| Names.FileNameInjective | extraer_imagenes.py:41 | distinct saved_count values give distinct file names, so no slide overwrites another |
| Names.FileNameIsJpg | extraer_imagenes.py:41-62 | every slide name ends in ".jpg" |
| Names.SlideNamesCount | extraer_imagenes.py:41-44 | n saves produce n distinct files |
| Names.LessIrreflexive | extraer_imagenes.py:63 | the string order used by sort is irreflexive |
| Names.LessAsymmetric | extraer_imagenes.py:63 | the string order is asymmetric |
| Names.LessTransitive | extraer_imagenes.py:63 | the string order is transitive |
| Names.LessTotal | extraer_imagenes.py:63 | any two distinct names are ordered one way or the other |
| Names.LessCommonPrefix | extraer_imagenes.py:62-63 | joining the same folder path in front of every name leaves their order unchanged |
| Names.TenthListedBeforeSecond | extraer_imagenes.py:63 | diapositiva_10.jpg sorts before diapositiva_2.jpg, so the sweep order differs from capture order |
| Names.Insert | eliminar_repetidas.py:14 | insertion adds exactly one element |
| Names.SortNames | eliminar_repetidas.py:14 | sorting permutes the names |
| Names.InsertSorted | eliminar_repetidas.py:14 | inserting a new name into a sorted list keeps it sorted |
| Names.SortNamesSorted | eliminar_repetidas.py:14 | a listing without repeats sorts into strictly increasing order |
| Names.SortedUnique | eliminar_repetidas.py:14 | two strictly sorted lists with the same names are equal: the processing order does not depend on the listing order |
| Names.FilterImages | eliminar_repetidas.py:13 | the filter keeps exactly the listed names with an accepted suffix |
| Names.FilterImagesDistinct | eliminar_repetidas.py:13 | filtering keeps names distinct |
| Names.ImageListSpec | eliminar_repetidas.py:13-14 | the processing order holds exactly the listed names with an accepted suffix, strictly sorted |
| Names.ImageListDistinct | eliminar_repetidas.py:13-14 | the processed names are distinct and all in the folder |
| Names.ListDir | eliminar_repetidas.py:13 | a listing names every file of the folder exactly once |

## Left out

- Video decoding, colour conversion and the numpy accumulator width. Frames
  are given as colour/grayscale pairs whose samples are 8-bit (`ValidVideo`
  bounds them to 0..255). The model's sum of differences is unbounded. A
  32-bit accumulator (NumPy 1.x on Windows, the platform the Tesseract path
  at dist/extraer_imagenes.py:10 points to) would wrap only past about
  16.8 million pixels per frame, since 255 times that reaches 2^32.
- Videos whose frames differ in resolution. `ValidVideo` also requires every
  grayscale frame to have the first frame's size. A size mismatch would make
  `cv2.absdiff` raise (extraer_imagenes.py:36, dist/extraer_imagenes.py:51),
  and the model has no such error path.
- Image reading and the similarity metrics (`calcHist`/`normalize`/`compareHist`,
  the 300x300 `cv2.resize`, SSIM). They are an opaque score of two file
  names. Only reads of files that are gone are modelled; corrupt files are
  not. In the histogram sweep, reading a missing file fails at once
  (`calcHist` of None). In the dist sweep, `cv2.imread` of a missing row
  image returns None, and the row fails at its first later image still
  present (`cv2.resize` of None). The checked sweep in eliminar_repetidas.py
  never reads a missing file.
- The face detector, the Tesseract OCR call and the perceptual hash are
  function parameters. Only the `len(texto.strip()) > 5` rule is modelled.
  Python's whitespace set is written out by code point.
- dist/extraer_imagenes.py:122 calls `compare_ssim`, which that file never
  imports. In Python, every comparison there would raise a NameError. The
  model treats that sweep as if the name resolved to an SSIM function. It
  describes the sweep's loop logic, not a run of that file.
- File names, not paths. The sweeps sort the joined paths; `LessCommonPrefix`
  shows this gives the same order as sorting the names.
- `os.makedirs`, the `print` messages, `cap.release()`, and a failing
  `cv2.imwrite`. Every write is assumed to succeed and to create its file.
- The module-level configuration and invocations of extraer_imagenes.py and
  eliminar_repetidas.py. The pipelines take `umbral` and `min_distancia` as
  parameters. dist/extraer_imagenes.py's invocation is modelled by
  `Ejecutar`.
- interfaz.py (a Tkinter front end that starts the scripts) is not part of
  this model.
- DistExtraerImagenes.ExtraerDiapositivasMejorado: the `frame` field of a
  written slide is the frame counter when it was written. After skipped
  candidates, that counter lags behind the decoder position, and the model
  does not relate it back to a position in the video.
- ExtraerImagenes.EliminarImagenesRepetidas and
  DistExtraerImagenes.EliminarImagenesRepetidas: on a failed read, the
  Python exception propagates out of the function. The model returns
  `ReadFailed` with the file name and the folder at that point, and does not
  model the exception type or the remaining output.
