# PerfectFrameAI frame sampling and quality selection, in Dafny

PerfectFrameAI takes videos and images from an input folder and picks the best-looking ones. It does this in four services, each with its own copy of the engine:

- **Extractor service.** Samples one frame per second from every video, scores each frame with an image-quality model, and keeps the best frame of each consecutive group. Its top-images extractor keeps the images that score above a percentile. Done videos are renamed with a prefix so they are not picked up again.
- **Image extractor service.** The same two policies, with a sequential frame sampler and a top-percent threshold measured from the other end.
- **Frames evaluators service.** Saves, as it streams, the best frame of every group of N scored frames. Its top-frames selector saves the frames above the 90th percentile, best first.
- **Evaluators service.** Its job manager and its directory listing.

The same kind of single-flight job manager fronts each service. It admits one job at a time and clears the active name when the job ends.

The model keeps each variant separate, because they differ:

- rounding of the frame rate (`round` against `int`);
- whether a trailing empty batch is yielded;
- which percentile the threshold sits at;
- whether the first failed read ends sampling;
- whether a manager records the job before or after scheduling it.

Conventions used throughout:

- Scores are exact `real`s. The quality models are abstract functions from a frame to a score.
- A video is a `Source`. It records whether it opens, its reported fps and frame count, its sequence of reads (`Option<Frame>`), and when the capture reports itself closed.
- The file system is a record of effects in order: images saved, files renamed, folders made. The clock (`time.time()`) and `uuid4` are parameters indexed by how many effects came before.

Modules:

| module | what it holds |
|---|---|
| `Wrappers` | `Option` and `Result` |
| `Arith` | shared integer facts |
| `Batching` | the batch-cutting all loops share |
| `ArgMax` | first-maximum selection and groups |
| `Percentiles` | numpy's linear percentile |
| `Paths` | pathlib suffix, `startswith`, join, basename, the listing filter |
| `Video` | the capture, `round` and `int`, seek and stream reads |
| `VideoProcessors` | the seek sampler of the extractor service |
| `ImageExtractorVideo` | the sequential sampler of the image extractor service |
| `Extractors` | the extractor service's extractors |
| `ImageEvaluators` | the NIMA scoring helpers and model cache |
| `ImageExtractors` | the image extractor service's extractors and the evaluators service's listing |
| `Jobs` | what the three job managers share |
| `ExtractorManagers` | the extractor service's job manager |
| `EvaluatorsManagers` | the job managers of the frames evaluators and evaluators services |
| `FramesEvaluator` | the frames evaluators' base class and its disk |
| `BestFramesExtractors` | the frames evaluators' best-frames extractor |
| `TopFramesSelectors` | the frames evaluators' top-frames selector |

Two facts about the code that are easy to get wrong:

- **Seek sampler count.** The seek sampler visits `range(0, n, round(r))`, which is `ceil(n / round(r))` positions (`Video.PositionsExact`).
- **Threshold example.** numpy's linear percentile of 10, 20, 30, 40, 90 at 80 is 50. Only the image scored 90 is kept (`Extractors.PercentileExample`, `Extractors.TopPercentExample`).

## Model

| member | source | states |
|---|---|---|
| ArgMax.FirstArgMax | extractor_service/app/extractors.py:249 | `np.argmax`: a position in range whose score no score exceeds, with every earlier score strictly smaller (the first maximum) |
| ArgMax.FirstArgMaxUnique | image_extractor_service/app/extractors.py:123 | those two properties determine the argmax: any first maximum is the position returned |
| ArgMax.GroupBest | extractor_service/app/extractors.py:247-250 | group `i` starts at `i*g` and ends at `min((i+1)*g, n)`; its pick lies inside it, is a maximum of the group, and is the first one |
| ArgMax.BestIndices | image_extractor_service/app/extractors.py:117-124 | one pick per group, `(n+g-1)//g` of them, the `i`-th being group `i`'s first maximum |
| ArgMax.GroupsTile | extractor_service/app/extractors.py:247 | the groups are consecutive: each full group ends where the next starts, and the last ends at `n` |
| ArgMax.BestIndicesOrdered | extractor_service/app/extractors.py:248-251 | the picks are strictly increasing and in range, so images come out in group order |
| ArgMax.Select | extractor_service/app/extractors.py:251 | the images at the picked positions, one per position, in order |
| ArgMax.ExampleGroups | extractor_service/app/tests/unit/best_frames_extractor_test.py:86-95 | scores 7,2,9,3,8,5,10,1,4,6 in groups of 3: four groups, whose bests are at 2, 4, 6, 9 |
| ArgMax.BestIndicesExample | extractor_service/app/tests/unit/best_frames_extractor_test.py:86-95 | the whole selection on that sample is positions 2, 4, 6, 9 |
| Arith.CeilDivBounds | image_extractor_service/app/extractors.py:117 | `(n+g-1)//g` groups of `g` cover `n`; the last starts below `n`; none iff `n == 0` |
| Arith.BelowIffLess | extractor_service/app/video_processors.py:69 | `k*g < n` exactly for the first `ceil(n/g)` values of `k` |
| Batching.Push | extractor_service/app/video_processors.py:74-79 | appending a frame emits the pending batch exactly when it reaches the batch size; full batches and the pending list stay those of the stream so far |
| Batching.ChunksCover | extractor_service/app/video_processors.py:76-79 | emitted batches plus the pending list give back the stream; every emitted batch is full; the pending list is shorter than a batch |
| Batching.ChunksAppend | extractor_service/app/video_manipulators.py:70-74 | one more item either completes the pending batch (emitted, list reset) or joins it |
| Batching.BatchesProperties | extractor_service/app/video_manipulators.py:72-76 | yielded batches concatenate to the frames read; each is non-empty and at most the batch size; all but the last are full; no frame yields nothing |
| Batching.PacksProperties | image_extractor_service/app/video_manipulators.py:74-84 | the packs concatenate to the kept frames; there is always at least one; all but the last are full; the last is shorter than a pack (possibly empty) |
| Batching.FlattenAppend | extractor_service/app/extractors.py:229 | extending by a batch's selections concatenates in batch order |
| Video.Capture.constructor | extractor_service/app/video_processors.py:99 | a new capture over the file: at position 0, nothing read, not released |
| Video.Capture.SetPosition | extractor_service/app/video_processors.py:70 | seeking sets the position and changes nothing else |
| Video.Capture.Read | extractor_service/app/video_processors.py:71 | a read gives the decoder's frame at the current position (nothing once released) and advances position and read count by one |
| Video.Capture.Release | extractor_service/app/video_processors.py:108 | release marks the capture released and changes nothing else |
| Video.RoundHalfEvenNearest | extractor_service/app/video_manipulators.py:128 | `round(fps)` is within one half of `fps`, and at an exact half it is even |
| Video.RoundHalfEvenUnique | extractor_service/app/video_processors.py:135 | any integer strictly nearer than one half is what `round` returns |
| Video.RoundHalfEvenExamples | image_extractor_service/app/video_manipulators.py:98 | 29.97 rounds to 30, 2.5 to 2, 3.5 to 4, and 0.5 and 0.4 to 0 |
| Video.TruncTowardZero | extractor_service/app/video_processors.py:66 | `int(x)` truncates toward zero, dropping less than one |
| Video.FrameRate | extractor_service/app/video_processors.py:125-136 | error iff the capture is closed (invalid capture) or fps is at most 0 (invalid rate); otherwise `round(fps)`: a non-negative integer within one half of fps, the even one at an exact half (2.5 gives 2) |
| Video.OpenVideoCapture | extractor_service/app/video_processors.py:99-108 | a capture that does not open gives `CantOpenVideoCapture` and is already released; one that opens is handed over unreleased |
| Video.PositionsFromExact | extractor_service/app/video_manipulators.py:65 | `range(from, total, step)` visits exactly `from + k*step` below `total`, in order |
| Video.PositionsExact | extractor_service/app/video_processors.py:66-69 | the positions are exactly `0, fps, 2 fps, ...` below `int(frame_count)`, `ceil(total/fps)` of them, none if total is at most 0 |
| Video.SeekReads | extractor_service/app/video_processors.py:69-73 | the seek reads: at most one frame per position, in order, ending at the first failed read |
| Video.SeekReadAt | extractor_service/app/video_processors.py:70-71 | the read at the `k`-th position is the next frame of the seek reads, or their end |
| Video.SeekReadsPrefix | extractor_service/app/video_manipulators.py:65-70 | frame `j` of the seek reads is what the `j`-th seek read gives; when fewer frames than positions come back, the next read failed |
| Video.StreamFrames | image_extractor_service/app/video_manipulators.py:69-78 | the sequential reads from a position: the decoded frames in order, up to the first failed read |
| Video.StreamFramesPrefix | frames_evaluators_service/app/best_frames_extractor.py:141-145 | frame `j` of the stream is what the `j`-th sequential read returns, and the read after the last one fails |
| Video.StreamFramesAt | image_extractor_service/app/video_manipulators.py:74-78 | the `j`-th sequential read yields frame `j` of the stream, or fails exactly at its end |
| Video.EveryNthLength | image_extractor_service/app/video_manipulators.py:78-81 | keeping items whose 1-based count is a multiple of `f` keeps `len // f` of them |
| Video.EveryNthIndex | frames_evaluators_service/app/best_frames_extractor.py:145-146 | the `j`-th kept item is the one read at count `(j+1)*f` |
| VideoProcessors.GetNextVideoFrames | extractor_service/app/video_processors.py:64-82 | unopenable video, fps at most 0, or fps rounding to 0 gives its error and no batch. Otherwise the seek reads at rounded fps, cut into batches. The capture is released on every path |
| VideoProcessors.SeekBatches | extractor_service/app/video_manipulators.py:59-76 | the seek loop yields exactly the batches of the frames read before the first failed read, trailing batch only when non-empty |
| VideoProcessors.NothingYielded | extractor_service/app/video_processors.py:69-82 | if `int(frame_count)` is at most 0, or the first read fails, nothing is yielded |
| VideoProcessors.SampledBatches | extractor_service/app/video_processors.py:66-82 | the batches concatenate to the frames read at `0, fps, 2 fps, ...` (the `j`-th at `j*fps`); each is non-empty and at most the batch size; all but the last are full |
| ImageExtractorVideo.GetVideoFramesPack | image_extractor_service/app/video_manipulators.py:66-84 | closed capture or fps at most 0 raises before reading. Otherwise the packs of every `fps`-th successfully read frame, with the always-yielded trailing pack; fps rounding to 0 raises at the first read; a capture closing mid-stream raises after the packs already yielded |
| ImageExtractorVideo.GetNextVideoFrames | image_extractor_service/app/video_manipulators.py:30-46 | an unopenable video raises `CantOpenVideoCapture`; otherwise it passes on the packs and error above; the capture is released on every path |
| ImageExtractorVideo.KeptFrames | image_extractor_service/app/video_manipulators.py:78-81 | the `j`-th kept frame is the one read at 1-based count `(j+1)*fps`, and `len // fps` frames are kept |
| ImageExtractorVideo.PacksShape | image_extractor_service/app/video_manipulators.py:82-84 | the packs concatenate to the kept frames; all but the last hold `required_size`; the last holds fewer |
| Extractors.GetExtractor | extractor_service/app/extractors.py:179-187 | "best_frames_extractor" and "top_images_extractor" map to their extractors (both directions); any other name is an unknown-name error |
| Extractors.ListInputDirectoryFiles | extractor_service/app/extractors.py:69-86 | the entries that are files, have a listed suffix and (no prefix, or a name without it), in listing order. An empty result is `EmptyInputDirectoryError`, showing "Prefix not provided" when the prefix is None or empty |
| Extractors.EmptyPrefixListsNothing | extractor_service/app/extractors.py:75-86 | an empty prefix starts every name, so listing always fails |
| Extractors.PrefixedNotListed | extractor_service/app/extractors.py:154 | a video renamed with the prefix is never listed again under that prefix |
| Extractors.AddPrefixExample | tests/extractor_service/unit/extractor_test.py:138-150 | `test_path/file.mp4` with prefix `prefix_` becomes `test_path/prefix_file.mp4` |
| Extractors.GetBestImages | extractor_service/app/extractors.py:246-253 | no scores is an error (argmax of an empty group). Otherwise the images at the first maximum of each group, in group order, or an index error when a pick is beyond the images |
| Extractors.BestImagesCount | extractor_service/app/extractors.py:247-251 | a non-empty batch gives exactly `ceil(n/g)` picks, strictly increasing, each the first maximum of its group |
| Extractors.GetTopPercentImages | extractor_service/app/extractors.py:290-291 | error iff no scores or the percent is outside 0..100; otherwise the zipped images scored strictly above the linear percentile at `top_percent`, at most as many as `zip` pairs |
| Extractors.TopPercentKeepsAbove | extractor_service/app/extractors.py:290-291 | exactly the zipped images whose score is strictly above the linear percentile at `top_percent`, in input order |
| Extractors.TopHundredKeepsNothing | extractor_service/app/extractors.py:290-291 | at 100 the threshold is the maximum, so nothing is kept |
| Extractors.TopPercentMonotone | extractor_service/app/extractors.py:290-291 | raising `top_percent` never keeps more images |
| Extractors.PercentileExample | extractor_service/app/extractors.py:290 | the 80th percentile of 10, 20, 30, 40, 90 is 50 |
| Extractors.TopPercentExample | extractor_service/app/extractors.py:290-291 | at 80 on those scores only the image scored 90 is kept |
| Extractors.Readable | extractor_service/app/extractors.py:120-123 | no more images than paths, each one a read of some path |
| Extractors.ReadableFrom | extractor_service/app/extractors.py:120-123 | every image kept was read from one of the paths |
| Extractors.ReadableNone | extractor_service/app/extractors.py:120-124 | when no path can be read the result is empty |
| Extractors.ReadableAll | extractor_service/app/extractors.py:120-124 | when every path can be read there is one image per path, in path order |
| Extractors.ReadImages | extractor_service/app/extractors.py:105-124 | `_read_images` returns the readable images in path order |
| Extractors.Scores | extractor_service/app/extractors.py:101 | one score per image, in image order |
| Extractors.BestOfBatch | extractor_service/app/extractors.py:226-228 | a batch's selection: the images at its group picks |
| Extractors.Saves | extractor_service/app/extractors.py:126-140 | one save per image, in order |
| Extractors.BestFramesRenames | extractor_service/app/extractors.py:202-205 | the best-frames run renames exactly the videos it finished, in listing order, each to its prefixed name, each after its frames are saved; a failing video stops the run |
| Extractors.Extractor.constructor | extractor_service/app/extractors.py:30-39 | a new extractor holds its config, has no evaluator, and has done nothing |
| Extractors.Extractor.GetImageEvaluator | extractor_service/app/extractors.py:45-54 | the evaluator is built (recorded once per call) |
| Extractors.Extractor.SaveImages | extractor_service/app/extractors.py:126-140 | one save per image appended, in image order |
| Extractors.Extractor.AddPrefix | extractor_service/app/extractors.py:142-158 | `parent/name` is renamed to `parent/(prefix+name)`, and that new path is returned |
| Extractors.Extractor.ExtractBestFrames | extractor_service/app/extractors.py:210-230 | the sampler's error, or the group bests of every non-empty batch concatenated in batch order |
| Extractors.Extractor.BestOfAllBatches | extractor_service/app/extractors.py:220-229 | the batch loop skips empty batches and extends by each batch's selection |
| Extractors.Extractor.ProcessBestFrames | extractor_service/app/extractors.py:192-208 | a listing error changes nothing. Otherwise the evaluator is built once, then for each listed video its frames are saved and then it is renamed; the first failing video ends the run with its error |
| Extractors.Extractor.ExtractVideo | extractor_service/app/extractors.py:203 | one video's extraction is that video's outcome |
| Extractors.Extractor.ExtractAllVideos | extractor_service/app/extractors.py:202-206 | the video loop appends exactly the run's effects: saves, then the rename, per video |
| Extractors.Extractor.ProcessTopImages | extractor_service/app/extractors.py:258-274 | a listing error changes nothing. Otherwise the evaluator is built, and a zero batch size is an error after that, a negative one visits nothing, a positive one saves each slice's top images |
| Extractors.Extractor.TopOfSlice | extractor_service/app/extractors.py:266-270 | a slice: read it, score what could be read, keep the top percent |
| Extractors.Extractor.ExtractAllSlices | extractor_service/app/extractors.py:265-271 | the slice loop appends exactly the saves of each slice's top images, stopping at the first error |
| Extractors.TopImagesSlices | extractor_service/app/extractors.py:265-266 | the slices cover every listed path exactly once, in order; each holds 1 to `batch_size` paths; all but the last are full |
| ImageEvaluators.Product | extractor_service/app/image_evaluators.py:131 | `prediction * weights` with numpy broadcasting: defined iff the lengths match or one is 1; element `i` is the product of the broadcast elements |
| ImageEvaluators.Ones | extractor_service/app/image_evaluators.py:130 | `np.ones_like`: all ones, same length |
| ImageEvaluators.WeightedMeanOfOnes | extractor_service/app/image_evaluators.py:129-132 | with no weights the result is the arithmetic mean; an empty prediction divides by zero |
| ImageEvaluators.WeightedMeanBounds | extractor_service/app/image_evaluators.py:116-132 | with non-negative weights of positive sum, the weighted mean of scores in `[lo, hi]` lies in `[lo, hi]` |
| ImageEvaluators.PredictionWeightsValues | extractor_service/app/image_evaluators.py:234 | the ResNet weights are exactly 1..10 in class order (sum 55) |
| ImageEvaluators.NimaScoreBounds | extractor_service/app/image_evaluators.py:108-110 | a ten-class prediction scores within the range of its class scores |
| ImageEvaluators.EvaluateImages | extractor_service/app/image_evaluators.py:108-113 | one weighted mean per prediction, in prediction order; an error iff some prediction cannot be weighed |
| ImageEvaluators.EvaluateImagesFirstError | extractor_service/app/image_evaluators.py:110 | the error raised is that of the first prediction that cannot be weighed |
| ImageEvaluators.CheckScores | extractor_service/app/image_evaluators.py:62-78 | never raises: it logs a warning iff the lengths differ |
| ImageEvaluators.NimaModel.constructor | extractor_service/app/image_evaluators.py:144-145 | the class starts with no config and no model |
| ImageEvaluators.NimaModel.Reset | extractor_service/app/image_evaluators.py:147-151 | model and config become None; files, requests and builds are untouched |
| ImageEvaluators.NimaModel.GetModel | extractor_service/app/image_evaluators.py:153-168 | a cached model is returned with config, files, requests and builds untouched. Otherwise the config is stored, weights are fetched only if the weights file is missing, and the model is built exactly once from that path; a download failure builds nothing |
| ImageEvaluators.NimaModel.GetModelWeights | extractor_service/app/image_evaluators.py:183-201 | returns `weights_directory/weights_filename`; downloads only when that file is missing, and never otherwise |
| ImageEvaluators.NimaModel.DownloadModelWeights | extractor_service/app/image_evaluators.py:203-226 | requests `repo_url + filename` once; status 200 writes the body to the path; any other status raises `DownloadingModelWeightsError` and writes nothing |
| ImageExtractors.ListDirectoryFiles | image_extractor_service/app/extractors.py:41-57 | a non-directory is `NotADirectoryError`; otherwise the files with a listed suffix whose name lacks the prefix, in order, with an empty result allowed |
| ImageExtractors.ListDirectoryFilesExact | evaluators_service/app/evaluators.py:38-44 | a path is listed iff it names a file entry with a listed suffix whose name does not start with the prefix |
| ImageExtractors.ListDirectoryFilesOrder | evaluators_service/app/evaluators.py:33-48 | listing order is kept: the listing of two runs of entries is the first's listing followed by the second's |
| ImageExtractors.ListDirectoryFilesPrefix | image_extractor_service/app/extractors.py:51 | an empty prefix lists nothing; a file renamed with the prefix is not listed again |
| ImageExtractors.GetBestImages | image_extractor_service/app/extractors.py:115-125 | no scores gives no images. Otherwise the image at the first maximum of each slice `ratings[i*g:(i+1)*g]`, in order, or an index error |
| ImageExtractors.GetTopPercentImages | image_extractor_service/app/extractors.py:140-155 | error iff no scores or the percent is outside 0..100; otherwise the zipped images scored strictly above the linear percentile at `100 - top_percent`, at most as many as `zip` pairs |
| ImageExtractors.TopPercentKeepsAbove | image_extractor_service/app/extractors.py:152-154 | exactly the zipped images scored strictly above the percentile at `100 - top_percent`, in input order |
| ImageExtractors.TopPercentMonotone | image_extractor_service/app/extractors.py:152-154 | raising `top_percent` never keeps fewer images |
| ImageExtractors.TopZeroKeepsNothing | image_extractor_service/app/extractors.py:152-154 | a top percent of 0 thresholds at the maximum and keeps nothing |
| ImageExtractors.Saves | image_extractor_service/app/extractors.py:65-68 | one save per image, in order, the `i`-th named `image_` + the `i`-th uuid |
| ImageExtractors.SavedNamesDistinct | image_extractor_service/app/extractors.py:67 | distinct uuids give distinct file names, so no save of a call overwrites another |
| ImageExtractors.ImageOutputs.SaveImages | image_extractor_service/app/extractors.py:64-68 | appends exactly those saves |
| ImageExtractors.ImageOutputs.AddPrefix | image_extractor_service/app/extractors.py:70-76 | renames to `parent/(prefix+name)` and returns that path |
| ExtractorManagers.ClassNamesDistinct | extractor_service/app/extractor_manager.py:70 | the two extractors' class names differ and neither is empty |
| ExtractorManagers.ExtractorManager.constructor | extractor_service/app/extractor_manager.py:21-41 | no active extractor in the class slot or the instance, and nothing queued |
| ExtractorManagers.ExtractorManager.Seen | extractor_service/app/extractor_manager.py:82 | `self.__active_extractor` reads the instance slot once written, the class slot before |
| ExtractorManagers.ExtractorManager.GetActiveExtractor | extractor_service/app/extractor_manager.py:24-31 | the getter reads the class slot only, whatever the instance holds |
| ExtractorManagers.ExtractorManager.CheckIsAlreadyExtracting | extractor_service/app/extractor_manager.py:75-89 | a 409 with "Extractor '<name>' is already running..." iff an active name is seen; otherwise nothing |
| ExtractorManagers.ExtractorManager.StartExtractor | extractor_service/app/extractor_manager.py:43-60 | busy is checked before the factory, so busy wins over an unknown name. An unknown name queues nothing. Otherwise it queues the run and returns "'<requested name>' started." without recording an active name |
| ExtractorManagers.ExtractorManager.RunExtractor | extractor_service/app/extractor_manager.py:62-73 | the instance slot holds the class name while `process()` runs (the getter still sees the class slot) and is cleared afterwards even when `process()` raises |
| ExtractorManagers.ExtractorManager.RunNext | extractor_service/app/extractor_manager.py:58 | the background runner takes the oldest queued run |
| ExtractorManagers.GetterMissesRun | extractor_service/app/extractor_manager.py:24-31 | as written, the getter reports no extractor while one is running |
| ExtractorManagers.SecondStartAdmitted | extractor_service/app/extractor_manager.py:56-60 | as written, a second start before the first run begins is admitted, and two runs are queued |
| ExtractorManagers.SharedExtractorManager.constructor | extractor_service/app/extractor_manager.py:21 | the intended manager: one shared slot, idle, nothing queued |
| ExtractorManagers.SharedExtractorManager.StartExtractor | extractor_service/app/extractor_manager.py:43-60 | same order of checks as written; an admitted start records the class name at once |
| ExtractorManagers.SharedExtractorManager.RunNext | extractor_service/app/extractor_manager.py:62-73 | the getter sees the running class; the slot is cleared afterwards whatever `process()` does |
| ExtractorManagers.SharedGetterSeesRun | extractor_service/app/extractor_manager.py:24-31 | with the shared slot the getter reports the running extractor |
| ExtractorManagers.SharedSecondStartRefused | extractor_service/app/extractor_manager.py:56-60 | with the shared slot a second start before the run is refused with 409 |
| EvaluatorsManagers.RunEffects | frames_evaluators_service/app/evaluators_manager.py:79-83 | a run always constructs the evaluator on the output folder first, and processes the input folder only if construction did not raise |
| EvaluatorsManagers.FramesEvaluatorsManager.constructor | frames_evaluators_service/app/evaluators_manager.py:35-36 | a new manager has no active evaluator and no worker |
| EvaluatorsManagers.FramesEvaluatorsManager.CheckIsAlreadyEvaluating | frames_evaluators_service/app/evaluators_manager.py:85-100 | a 409 with "Evaluator '<name>' is already running..." iff active; otherwise nothing |
| EvaluatorsManagers.FramesEvaluatorsManager.StartEvaluationProcess | frames_evaluators_service/app/evaluators_manager.py:38-64 | while busy: refused, no worker started, state unchanged. Otherwise one worker is started, active becomes the class name, and it returns "'<ClassName>' started." |
| EvaluatorsManagers.FramesEvaluatorsManager.BackgroundProcess | frames_evaluators_service/app/evaluators_manager.py:66-83 | the worker constructs and processes as `RunEffects` says, and active is cleared whether it completes or raises |
| EvaluatorsManagers.FramesStartRunStart | frames_evaluators_service/app/evaluators_manager.py:58-83 | a start is accepted, a second start while it runs is refused, and a start after the run ends is accepted |
| EvaluatorsManagers.EvaluatorsManager.constructor | evaluators_service/app/evaluators_manager.py:35 | the class-level slot starts empty, with no task |
| EvaluatorsManagers.EvaluatorsManager.CheckIsAlreadyEvaluating | evaluators_service/app/evaluators_manager.py:74-90 | a 409 iff the shared slot is set, with the period-terminated detail |
| EvaluatorsManagers.EvaluatorsManager.StartEvaluatorAsWritten | evaluators_service/app/evaluators_manager.py:59-64 | as written: busy gives 409; idle reaches the undefined `EvaluatorFactory` and raises `NameError`, with nothing scheduled and nothing recorded |
| EvaluatorsManagers.EvaluatorsManager.StartEvaluator | evaluators_service/app/evaluators_manager.py:37-64 | busy is checked before the factory; an unknown name schedules nothing; a known one schedules the task, records the class name and returns "'<ClassName>' started." |
| EvaluatorsManagers.EvaluatorsManager.RunEvaluator | evaluators_service/app/evaluators_manager.py:66-72 | the shared slot is cleared whether `process()` returns or raises |
| EvaluatorsManagers.EvaluatorNeverStarts | evaluators_service/app/evaluators_manager.py:60 | as written, an idle manager never starts any evaluator |
| EvaluatorsManagers.EvaluatorStartsOnce | evaluators_service/app/evaluators_manager.py:59-64 | with the factory, an idle manager starts a known evaluator, and a second start is refused with 409 naming it |
| Paths.SuffixShape | extractor_service/app/extractors.py:74 | a non-empty suffix starts at the last dot, is not the whole name, is more than a dot, and has no further dot |
| Paths.SuffixOfSplit | evaluators_service/app/evaluators.py:42 | `stem.ext` with a dot-free extension and a non-empty stem has suffix `.ext` |
| Paths.SuffixExamples | image_extractor_service/app/extractors.py:50 | `video.mp4` gives `.mp4`, `archive.tar.gz` gives `.gz`, while `.mp4` and `video.` have no suffix |
| Paths.Join | frames_evaluators_service/app/best_frames_extractor.py:184 | `os.path.join` ends with the joined name |
| Paths.Basename | frames_evaluators_service/app/best_frames_extractor.py:100 | `os.path.basename` has no slash and ends the path |
| Paths.BasenameJoin | frames_evaluators_service/app/best_frames_extractor.py:100-101 | the basename of `join(folder, name)` is `name` for a slash-free name |
| Paths.FilterListed | extractor_service/app/extractors.py:71-76 | an entry is kept iff it is in the listing, is a file, has a listed suffix and passes the prefix test; never more than listed |
| Paths.FilterListedAppend | evaluators_service/app/evaluators.py:39-44 | the filter keeps listing order: filtering two runs of entries concatenates their results |
| Percentiles.SortAsc | extractor_service/app/extractors.py:290 | the sorted copy numpy interpolates over: ascending, same length, a permutation of the scores |
| Percentiles.Rank | extractor_service/app/extractors.py:290 | the fractional rank `(n-1)p/100` lies between 0 and `n-1` |
| Percentiles.InterpBetween | extractor_service/app/extractors.py:290 | linear interpolation lies between the two neighbouring order statistics |
| Percentiles.PercentileMonotone | extractor_service/app/extractors.py:290 | for `0 <= p <= q <= 100` the percentile at `p` is at most that at `q` |
| Percentiles.InterpWithin | frames_evaluators_service/app/top_frames_selector.py:105 | the percentile lies between the smallest and largest score, and at 100 it is the largest |
| Percentiles.PercentileBelowStrictMax | frames_evaluators_service/app/top_frames_selector.py:105 | with a strict maximum among at least two scores, every percentile below 100 is strictly below that maximum |
| Percentiles.PercentileRange | image_extractor_service/app/extractors.py:153 | error iff no scores or `p` outside 0..100; otherwise between the minimum and maximum, and at 100 no score exceeds it |
| Percentiles.IndicesAbove | extractor_service/app/extractors.py:291 | the positions strictly above the threshold: increasing, in range, and every such position included |
| Percentiles.AboveAntitone | image_extractor_service/app/extractors.py:154 | a higher threshold keeps no more positions |
| FramesEvaluator.ScoresOf | frames_evaluators_service/app/top_frames_selector.py:104 | the scores of the scored frames, in order |
| FramesEvaluator.CheckExtensionIsValid | frames_evaluators_service/app/evaluator.py:205-222 | True iff the extension is available; otherwise an error listing the available ones |
| FramesEvaluator.NatToString | frames_evaluators_service/app/evaluator.py:171-172 | the decimal digits of the millisecond timestamp, without a leading zero |
| FramesEvaluator.ParseNatToString | frames_evaluators_service/app/evaluator.py:172 | reading the digits back gives the timestamp |
| FramesEvaluator.FrameNameInjective | frames_evaluators_service/app/evaluator.py:171-172 | two frame names of one format are equal only for equal timestamps |
| FramesEvaluator.FrameNameShape | frames_evaluators_service/app/evaluator.py:172 | `best_frame_<ms>.<format>` has no slash, and its suffix is `.<format>` |
| FramesEvaluator.FramePathsDistinct | frames_evaluators_service/app/evaluator.py:171-173 | the saved path's basename is the frame name, and distinct timestamps give distinct paths |
| FramesEvaluator.Glob | frames_evaluators_service/app/evaluator.py:199 | `glob(join(folder, '*ext'))`: exactly the folder's names ending in `ext`, joined to the folder |
| FramesEvaluator.Disk.CheckFolderExists | frames_evaluators_service/app/evaluator.py:72-80 | afterwards the folder exists; it is created only when missing, and otherwise nothing changes |
| FramesEvaluator.Disk.SaveNdarrayFrame | frames_evaluators_service/app/evaluator.py:156-176 | writes the frame to `join(folder, "best_frame_<ms>.<format>")` and returns that path |
| FramesEvaluator.Disk.Rename | frames_evaluators_service/app/best_frames_extractor.py:185 | one rename is recorded and nothing else changes |
| FramesEvaluator.Disk.GetFilesWithSpecificExtensionFromFolder | frames_evaluators_service/app/evaluator.py:178-203 | the extension is checked before the folder. An invalid extension or a missing folder is an error; otherwise exactly the glob matches, and none is not an error |
| BestFramesExtractors.Scored | frames_evaluators_service/app/best_frames_extractor.py:165-166 | each frame paired with its score, in order |
| BestFramesExtractors.BestOfIsFirstMax | frames_evaluators_service/app/best_frames_extractor.py:168 | `max(batch, key=score)` picks an entry no other entry exceeds and that no earlier entry equals |
| BestFramesExtractors.Bests | frames_evaluators_service/app/best_frames_extractor.py:167-169 | one best frame per batch, in order |
| BestFramesExtractors.BestFramesAppend | frames_evaluators_service/app/best_frames_extractor.py:165-171 | scoring one more frame saves the best of the pending batch exactly when it reaches N, and then empties it |
| BestFramesExtractors.BestFramesExact | frames_evaluators_service/app/best_frames_extractor.py:165-171 | over `m` scored frames `m // N` frames are saved, the `j`-th the first best of frames `jN..(j+1)N`; a shorter trailing batch is never saved |
| BestFramesExtractors.ModZeroAbs | frames_evaluators_service/app/best_frames_extractor.py:146 | Python's `count % t == 0` holds exactly when `abs(t)` divides the count |
| BestFramesExtractors.Unprocessed | frames_evaluators_service/app/best_frames_extractor.py:99-103 | a video is yielded iff its path was listed and its basename lacks the done-prefix |
| BestFramesExtractors.Processed | frames_evaluators_service/app/best_frames_extractor.py:74-79 | the number of videos, from the first, that extract without raising; the next one raised |
| BestFramesExtractors.RenamesOf | frames_evaluators_service/app/best_frames_extractor.py:184-185 | one rename per video to `join(folder, prefix + filename)`, in order |
| BestFramesExtractors.RunRenames | frames_evaluators_service/app/best_frames_extractor.py:74-79 | the run renames exactly the videos that extracted without raising, in order, and stops with the first error |
| BestFramesExtractors.RenamedVideoSkipped | frames_evaluators_service/app/best_frames_extractor.py:101 | a renamed video's basename starts with the prefix, so it is not listed again |
| BestFramesExtractors.SavedComplete | frames_evaluators_service/app/best_frames_extractor.py:167-171 | the frame that completes a batch saves its best and leaves the batch empty |
| BestFramesExtractors.BestFramesExtractor.constructor | frames_evaluators_service/app/evaluator.py:53-66 | the output folder exists afterwards, created only if it was missing |
| BestFramesExtractors.BestFramesExtractor.FilterVideosFromFiles | frames_evaluators_service/app/best_frames_extractor.py:81-103 | the listing error when the extension is invalid or the folder is missing; otherwise the unprocessed `*ext` matches |
| BestFramesExtractors.BestFramesExtractor.FilterVideosExact | frames_evaluators_service/app/best_frames_extractor.py:95-103 | a video is listed iff its file is in the folder, ends in the extension and lacks the prefix |
| BestFramesExtractors.BestFramesExtractor.GetVideoCapture | frames_evaluators_service/app/best_frames_extractor.py:188-205 | an unopenable video gives "Can't open: <path>" and is released; otherwise the capture is returned unreleased |
| BestFramesExtractors.BestFramesExtractor.ExtractAndSaveBestFrame | frames_evaluators_service/app/best_frames_extractor.py:150-171 | the frame and its score join the batch; at N the first best frame is saved and the batch emptied, otherwise nothing is saved |
| BestFramesExtractors.BestFramesExtractor.SavedStep | frames_evaluators_service/app/best_frames_extractor.py:165-171 | one call keeps "saved so far = the bests of the full batches, pending = the rest" |
| BestFramesExtractors.BestFramesExtractor.ProcessVideoFrames | frames_evaluators_service/app/best_frames_extractor.py:123-148 | a closed capture does nothing. Otherwise it reads in order until the first failed read, scores every frame whose 1-based count is a multiple of `int(fps)`, and saves the bests of the full batches of N; a truncated rate of 0 raises at the first frame read |
| BestFramesExtractors.BestFramesExtractor.ExtractBestFramesFromVideo | frames_evaluators_service/app/best_frames_extractor.py:105-121 | N < 2 raises before opening (N = 2 accepted); an unopenable video raises; otherwise the saves above; the capture is released on every path it was opened |
| BestFramesExtractors.BestFramesExtractor.ChangeProcessedVideoName | frames_evaluators_service/app/best_frames_extractor.py:173-186 | renames the video to `join(folder, prefix + filename)` |
| BestFramesExtractors.BestFramesExtractor.ExtractBestFramesFromAllVideosInFolder | frames_evaluators_service/app/best_frames_extractor.py:59-79 | a listing error changes nothing. Otherwise for each unprocessed video in order its frames are saved and then it is renamed; the first raising video ends the run with its error |
| BestFramesExtractors.BestFramesExtractor.Process | frames_evaluators_service/app/best_frames_extractor.py:50-57 | the same run with `.mp4`, N = 5 and prefix `frames_extracted_` |
| TopFramesSelectors.InsertDesc | frames_evaluators_service/app/top_frames_selector.py:106 | one insertion step of the descending sort: one more element, the same multiset |
| TopFramesSelectors.SortDesc | frames_evaluators_service/app/top_frames_selector.py:106 | `sort(key=score, reverse=True)`: same length, descending by score, a permutation |
| TopFramesSelectors.SortDescStable | frames_evaluators_service/app/top_frames_selector.py:106 | the sort is stable: frames of equal score keep their input order |
| TopFramesSelectors.Above | frames_evaluators_service/app/top_frames_selector.py:107-108 | the frames scored strictly above the threshold, never more than given |
| TopFramesSelectors.AboveCount | frames_evaluators_service/app/top_frames_selector.py:107-108 | each frame is saved as often as it occurs with a score above the threshold, and never otherwise |
| TopFramesSelectors.AbovePermutation | frames_evaluators_service/app/top_frames_selector.py:107-108 | filtering a permutation gives a permutation of the filtered frames |
| TopFramesSelectors.AboveOfSortedIsPrefix | frames_evaluators_service/app/top_frames_selector.py:106-108 | in descending order the frames above the threshold are a prefix, and everything after it is at most the threshold |
| TopFramesSelectors.AboveWithScore | frames_evaluators_service/app/top_frames_selector.py:106-108 | filtering keeps the order of frames of equal score |
| TopFramesSelectors.TopFrames | frames_evaluators_service/app/top_frames_selector.py:104-109 | an error iff there are no frames or the percentile is outside 0..100; otherwise the frames saved, in saving order |
| TopFramesSelectors.TopFramesValue | frames_evaluators_service/app/top_frames_selector.py:104-109 | the saved frames are those of the sorted list scored strictly above the linear percentile of all scores |
| TopFramesSelectors.TopFramesSaved | frames_evaluators_service/app/top_frames_selector.py:104-109 | exactly the frames scored strictly above the threshold, each as often as it occurs. They are saved best first, as a prefix of the sorted list with the rest at most the threshold, and ties keep input order |
| TopFramesSelectors.EqualScoresSaveNothing | frames_evaluators_service/app/top_frames_selector.py:104-109 | when all scores are equal no frame is saved |
| TopFramesSelectors.StrictBestSavedFirst | frames_evaluators_service/app/top_frames_selector.py:104-109 | with two or more frames, a percentile below 100 and a strictly best frame, something is saved and the best frame is saved first |
| TopFramesSelectors.ScoreAllOk | frames_evaluators_service/app/top_frames_selector.py:84-91 | scoring succeeds iff every path is readable, and then gives one (frame, score) pair per path, in path order |
| TopFramesSelectors.ScoreAllFirstError | frames_evaluators_service/app/top_frames_selector.py:86-87 | a failure names the first unreadable path |
| TopFramesSelectors.TopFramesSelector.constructor | frames_evaluators_service/app/evaluator.py:53-66 | the output folder exists afterwards, created only if missing |
| TopFramesSelectors.TopFramesSelector.LoadFrames | frames_evaluators_service/app/top_frames_selector.py:56-72 | an error iff the extension is not `.jpg`, `.jpeg` or `.png` or the folder is missing; otherwise exactly the folder's files ending in the extension |
| TopFramesSelectors.TopFramesSelector.ScoreAllFrames | frames_evaluators_service/app/top_frames_selector.py:74-91 | the loop scores every path in order, stopping at the first unreadable one |
| TopFramesSelectors.TopFramesSelector.SaveTopFrames | frames_evaluators_service/app/top_frames_selector.py:93-110 | an error leaves list and disk unchanged. Otherwise the caller's list is sorted in place, descending and stable, and exactly the frames above the threshold are written, in that order |
| TopFramesSelectors.TopFramesSelector.Process | frames_evaluators_service/app/top_frames_selector.py:46-54 | load `.jpg` frames, score them, save those above the 90th percentile, each step once and in that order; the first error ends it |
| TopFramesSelectors.TwoFramesExample | frames_evaluators_service/app/tests/unit/top_frames_selector_test.py:67-80 | scores 10 and 1: the threshold is 9.1 and only the frame scored 10 is saved |

## Left out

- Threads, `BackgroundTasks` and `ThreadPoolExecutor` are modelled sequentially. A background job is a separate run called after the start. Check-then-set atomicity is not claimed, since the code has no lock. In the frames evaluators manager a worker that finishes before `active_evaluator` is set would leave it set; the model requires the run to follow the start.
- The wall clock and `uuid.uuid4()` are parameters. The timestamp of a saved frame is a function of how many effects came before, and so is the `i`-th uuid of a call.
- Saves and renames are recorded as effects and not applied back to later directory listings. Glob results are in listing order, with no special glob characters in the extension.
- `os.makedirs` creating parent folders, `cv2.imwrite` failures and write failures are not modelled.
- The quality models (TensorFlow NIMA, pyiqa, torch), colour conversion, `requests` and the decoder are abstract functions. The NIMA model build is recorded, not performed.
- Floating point: scores, fps and the percentile are exact reals, with no NaN and no numpy dtype behaviour.
- Logging is left out; only the level `_check_scores` logs at is modelled. Exception messages are structured error values carrying the fields the message shows.
- `list.sort` is modelled by its result (a stable insertion sort), not by Timsort's steps. The in-place effect on the caller's list is kept.
- The image extractor service's `process` loops and `_extract_best_frames` are not part of this model. The evaluators service's `list_directory_files` has the same code as the image extractor service's, and both are `ImageExtractors.ListDirectoryFiles`.
- Extractors.GetBestImages, ImageExtractors.GetBestImages, Extractors.Extractor.ExtractBestFrames, Extractors.Extractor.BestOfAllBatches, Extractors.Extractor.ProcessBestFrames, Extractors.Extractor.ExtractVideo, Extractors.Extractor.ExtractAllVideos: require a group size (`compering_group_size`) of at least 1. A size of 0 or less is a configuration error that numpy and `range` do not handle meaningfully.
- VideoProcessors.GetNextVideoFrames: a rounded fps of 0 is reported as an error value, standing for Python's `range` step error. A batch size of 0 or less never completes a batch, so the frames come out as one trailing batch.
- ImageExtractorVideo.GetVideoFramesPack: a rounded fps of 0 raises at the first successful read (modulo by zero), as the code does.
- EvaluatorsManagers.EvaluatorsManager.StartEvaluator: `EvaluatorFactory` is undefined in the source, so the intended factory is a parameter.

## Findings

| source | as written | input that shows it | evidently intended | confidence | as-written member | corrected member |
|---|---|---|---|---|---|---|
| extractor_service/app/extractor_manager.py:24-31 | `__run_extractor` assigns `self.__active_extractor`, creating an instance attribute, while `get_active_extractor` reads the class attribute | start "best_frames_extractor", then ask the getter during the run | the getter reports the running extractor | not executed | ExtractorManagers.GetterMissesRun | ExtractorManagers.SharedGetterSeesRun |
| extractor_service/app/extractor_manager.py:56-60 | `start_extractor` records no active name; only the run does | two starts before the first run begins | the second start is refused with 409 | not executed | ExtractorManagers.SecondStartAdmitted | ExtractorManagers.SharedSecondStartRefused |
| evaluators_service/app/evaluators_manager.py:60 | `EvaluatorFactory` is neither defined nor imported, so every start on an idle manager raises `NameError` | any start on a new manager | a known evaluator is started and recorded | not executed | EvaluatorsManagers.EvaluatorNeverStarts | EvaluatorsManagers.EvaluatorStartsOnce |
