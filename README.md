# Optical-flow video scoring: a Dafny model of the bookkeeping in `optical_flow/demo.py`

`get_prob(path_input)` scores a video as follows:

- It derives two working folders from the video's file name.
- It extracts every frame to `frame/<name>/frame_<5-digit index>.png`.
- It lists and sorts those frames and pairs each frame with the next.
- For each pair it writes a colour-encoded optical-flow raster to `optical_result/<name>/`. The raster is named after the pair's first frame.
- It averages a classifier's probability over the sorted raster listing.

This project models that sequencing and bookkeeping and proves what it guarantees. The neural networks, the decoder and the image codecs it calls are taken as parameters.

Modules:

- `PyText` covers the Python string semantics the code relies on:
  - lexical `str` order and `sorted()` on lists of strings;
  - `str.strip()` with Python's whitespace set;
  - POSIX `os.path.basename` and `os.path.join`.
- `FrameNaming` covers the frame names `f"frame_{k:05d}.png"` and their inverse parse. It also proves that lexical order of the names is capture order below 100000 frames, and that this breaks at 100000.
- `FramePairs` covers the pairing `zip(images[:-1], images[1:])`.
- `Scoring` covers the sum/count loop of `get_prob` and the mean it returns. The mean is computed over exact reals, and an empty list is a `ZeroDivisionError`.
- `Pipeline` covers `Args`, `viz`, `video_to_frames`, `OF_gen` and `get_prob`:
  - a `FileSystem` class holds the files written, by path;
  - the methods mirror the source's loops;
  - functions such as `FrameFiles` and `RasterFiles` state exactly which files exist afterwards.

The parameters of the model are:

- the decoder, given as whether the video opened plus the frames it yields;
- the `glob` listings, given as input sequences;
- `natsorted`, as a function on lists;
- the flow network with its padding and colour encoding, as a function from a pair of frame paths to an image;
- the classifier, as a function from a raster path to a real.

Points where the code's behaviour is easy to misread:

- The raster of a pair is named after the pair's FIRST frame (`imfile1`, demo.py:99), not the second.
- Because the name goes through `strip()`, two frames whose names differ only in surrounding whitespace share a raster path (`RasterPathWhitespaceCollision`).
- A video that cannot be opened raises no error. It writes no frames, and the pairs come from whatever the frame folder already holds: none for a fresh folder, the stale frames of an earlier run otherwise (demo.py:55, 66-70).
- The flow is never cropped back ("unpadded") before it is encoded (demo.py:95-99).

## Model

| member | source | states |
|---|---|---|
| PyText.SortStrings | optical_flow/demo.py:68 | `sorted()` returns the listing in ascending lexical order, holding exactly the same elements (a permutation) |
| PyText.LexLt | optical_flow/demo.py:68 | Python's `<` on `str`: the first differing code point decides and a proper prefix is smaller; its contract makes it irreflexive |
| PyText.LexLtAsymmetric | optical_flow/demo.py:68 | `a < b` and `b < a` never both hold |
| PyText.LexTotal | optical_flow/demo.py:68 | any two different strings are ordered one way or the other |
| PyText.LexLtTransitive | optical_flow/demo.py:68 | `a < b` and `b < c` give `a < c`, so `sorted()` has a well-defined result |
| PyText.LexCommonPrefix | optical_flow/demo.py:68 | a shared prefix (such as a common folder) does not change how two strings compare, in both directions |
| PyText.SortedUnique | optical_flow/demo.py:68 | two sorted lists with the same elements are equal, so `sorted()` depends only on the multiset of names |
| PyText.SortOfAscending | optical_flow/demo.py:68 | sorting any permutation of a strictly ascending list gives back that list |
| PyText.Strip | optical_flow/demo.py:43 | `str.strip()` over Python's whitespace set: the result is no longer than the input and neither starts nor ends with whitespace (StripShape gives the full characterisation) |
| PyText.StripShape | optical_flow/demo.py:43 | `strip()` keeps one contiguous piece of the name; everything removed before and after it is whitespace, and the piece neither starts nor ends with whitespace |
| PyText.StripIdempotent | optical_flow/demo.py:43 | stripping a stripped name changes nothing |
| PyText.StripKeepsOut | optical_flow/demo.py:43 | `strip()` introduces no character the name did not hold, in particular no '/' |
| PyText.Basename | optical_flow/demo.py:41-42 | `os.path.split(p)[1]` / `os.path.basename(p)`: holds no '/', is no longer than the path, and is preceded by a '/' whenever it is shorter |
| PyText.BasenameSuffix | optical_flow/demo.py:41-42 | the basename is the tail of the path |
| PyText.BasenameAfterSlash | optical_flow/demo.py:105-110 | the last component of `dir + name`, where `dir` ends in '/' and `name` has no '/', is `name` |
| PyText.BasenameOfJoin | optical_flow/demo.py:41-42 | the last component of `os.path.join(folder, name)` is `name` for a plain file name |
| PyText.Join | optical_flow/demo.py:60 | two-argument POSIX `os.path.join`: the result is no shorter than the name and adds at most the folder and one separator (JoinSuffix: it ends with the whole name); BasenameOfJoin, JoinInjective and JoinOrder give its behaviour on frame names |
| PyText.JoinSuffix | optical_flow/demo.py:60 | `os.path.join(folder, name)` ends with the whole name, and begins with the folder unless the name is absolute |
| PyText.JoinInjective | optical_flow/demo.py:60 | in one folder, joined paths are equal exactly when the file names are |
| PyText.JoinOrder | optical_flow/demo.py:60 | in one folder, joined paths compare lexically exactly as the file names do |
| FrameNaming.FrameIndexOfName | optical_flow/demo.py:60 | reading the index back from `frame_{k:05d}.png` gives k, for every k including past five digits |
| FrameNaming.FrameName | optical_flow/demo.py:60 | `f"frame_{k:05d}.png"`; a plain definition, whose inverse is FrameIndexOfName and whose order is FrameNameOrder |
| FrameNaming.FramePath | optical_flow/demo.py:60 | `os.path.join(output_folder, name)`; a plain definition: its basename is the frame name (BasenameOfJoin with FrameNameShape), and in one folder paths are one-to-one (FramePathInjective) and, below index 100000, ordered by index (FramePathOrder) |
| FrameNaming.FrameNameInjective | optical_flow/demo.py:60 | two frame names are equal exactly when their indices are |
| FrameNaming.FrameNameShape | optical_flow/demo.py:60 | a frame name is a plain file name: non-empty, no '/', and unchanged by `strip()` |
| FrameNaming.FramePathInjective | optical_flow/demo.py:60 | in one output folder, frame paths are equal exactly when the indices are |
| FrameNaming.FrameNameOrder | optical_flow/demo.py:60 | below 100000, name i sorts before name j exactly when i < j |
| FrameNaming.OrderBreaksPastWidth | optical_flow/demo.py:60 | at 100000 the five-digit field overflows, and frame 100000's name sorts before frame 99999's |
| FrameNaming.FramePathOrder | optical_flow/demo.py:60 | below 100000, frame paths in one folder sort in capture order, in both directions |
| FrameNaming.SortedListingIsCaptureOrder | optical_flow/demo.py:66-68 | when the folder lists exactly this run's frames (at most 100000), in any order, `sorted()` returns them in capture order |
| FramePairs.Zip | optical_flow/demo.py:90 | `zip` stops at the shorter list and pairs elements position by position |
| FramePairs.AdjacentPairs | optical_flow/demo.py:90 | a list of length L yields max(L-1, 0) pairs, and pair k is (images[k], images[k+1]) |
| FramePairs.PairsUsingFrame | optical_flow/demo.py:90 | an interior frame is in exactly two pairs (k-1 and k); the first and last frames are in one pair each; a lone frame is in none |
| Scoring.Mean | optical_flow/demo.py:175 | the division fails exactly when the list is empty; otherwise mean × count equals the sum |
| Scoring.Sum | optical_flow/demo.py:157-172 | the running total `optical_prob_sum`, from 0, adding left to right; a plain definition, whose properties are SumConcat, SumPermutation and SumBounds |
| Scoring.SumConcat | optical_flow/demo.py:172 | the total of two lists one after the other is the sum of their totals |
| Scoring.SumPermutation | optical_flow/demo.py:172 | the accumulated sum does not depend on the order of the probabilities |
| Scoring.SumBounds | optical_flow/demo.py:172 | a sum of values in [lo, hi] lies between count·lo and count·hi |
| Scoring.MeanInUnitInterval | optical_flow/demo.py:171-175 | for a non-empty list whose probabilities are all in [0, 1] (sigmoid outputs), the score is defined and lies in [0, 1] |
| Scoring.MeanPermutation | optical_flow/demo.py:175 | the score does not change when the probabilities are permuted |
| Scoring.ScoreIgnoresListingOrder | optical_flow/demo.py:151-175 | the score of a raster listing does not depend on its order, so sorting it first has no effect on the result |
| Scoring.AverageProbability | optical_flow/demo.py:157-175 | after the loop `count` is the list length and `optical_prob_sum` the sum of the probabilities; the result is their mean, or `ZeroDivisionError` for an empty list |
| Pipeline.MakeArgs | optical_flow/demo.py:102-116 | the folders are `frame/` and `optical_result/` followed by the video's last path component; the two folders differ; `path` is the input |
| Pipeline.WorkingFoldersShareBasename | optical_flow/demo.py:105-110 | two videos get the same frame folder, and the same raster folder, exactly when their paths end in the same component |
| Pipeline.RasterPathInjective | optical_flow/demo.py:41-43 | in one folder, two frames get the same raster path exactly when their stripped file names agree; the frames' directories play no role |
| Pipeline.RasterPathWhitespaceCollision | optical_flow/demo.py:41-43 | distinct file names " a.png" and "a.png" map to the same raster path |
| Pipeline.RasterPathOfFrame | optical_flow/demo.py:41-43 | the raster of a pair whose first frame is extracted frame k is `<folder>/frame_{k:05d}.png` |
| Pipeline.FileSystem.Write | optical_flow/demo.py:61 | `cv2.imwrite` creates or replaces exactly one file and leaves every other file as it was |
| Pipeline.Writes | optical_flow/demo.py:61 | after a run of writes, the files present are exactly the paths written |
| Pipeline.WritesDistinct | optical_flow/demo.py:61 | when no path is written twice, there is one file per write, holding what was written there |
| Pipeline.FrameFiles | optical_flow/demo.py:53-62 | the files `video_to_frames` writes: frame k under its frame path; a plain definition, characterised by FrameFilesContent |
| Pipeline.FrameFilesContent | optical_flow/demo.py:53-62 | reading n frames writes exactly n distinct paths (a stale file under one of them is replaced, not added), exactly the paths `frame_00000.png` .. of indices 0 .. n-1, frame k stored under the path with index k |
| Pipeline.VideoToFrames | optical_flow/demo.py:48-70 | all decodable frames are written when the video opens and none otherwise; the new files are exactly `FrameFiles`; the result is the sorted listing |
| Pipeline.Viz | optical_flow/demo.py:32-45 | writes the flow raster to the path derived from the pair's first frame and changes no other file |
| Pipeline.RasterPath | optical_flow/demo.py:41-43 | `folder + '/' + strip(basename(imfile1))`: the raster always lies directly in the folder (the part after `folder/` has no '/'); two frames get the same path exactly when their stripped names agree (RasterPathInjective) |
| Pipeline.RasterFiles | optical_flow/demo.py:90-99 | the rasters the pair loop leaves: exactly one file per raster path of the pairs' first frames, later pairs overwriting earlier ones |
| Pipeline.RasterFilesContent | optical_flow/demo.py:90-99 | when no two first frames share a stripped name, there is one raster per pair, holding that pair's flow |
| Pipeline.WriteRasters | optical_flow/demo.py:90-99 | the pair loop: afterwards the files are the earlier ones plus exactly `RasterFiles` of the pairs, in order |
| Pipeline.OfGen | optical_flow/demo.py:73-99 | given that `natsorted` only reorders, the returned listing holds exactly the listed files (stale ones included) and yields max(L-1, 0) pairs; the frames and then one raster per adjacent pair are added to the files, later writes replacing earlier ones |
| Pipeline.GetProb | optical_flow/demo.py:118-178 | given that `natsorted` only reorders, leaves the files `OF_gen` writes for the derived folders and returns the mean probability over the raster listing, failing when it is empty |
| Pipeline.CleanRunRasters | optical_flow/demo.py:86-99 | with n frames in capture order there are max(n-1, 0) distinct rasters, exactly those named after frames 0 .. n-2, raster k holding the flow from frame k to frame k+1 |
| Pipeline.CleanRunScore | optical_flow/demo.py:151-175 | for a clean run of at most 100000 frames, `sorted()` lists the rasters in pair order, and the score fails exactly when there were fewer than two frames |

## Left out

- Video decoding (`cv2.VideoCapture`, `cap.read`, `cap.release`) is left out. The decoder becomes two inputs: whether the video opened, and the frames read before the first failed read. `cap.isOpened()` is taken to stay constant during the loop.
- Directory creation (`os.makedirs`, `os.path.exists`) is not modelled. The file system maps paths to bytes, and only writes are modelled.
- Reading images back (`load_image`, `Image.open`) is folded into the `flow` and `classify` parameters.
- `glob.glob` is an input sequence, since what it returns depends on the disk, including stale files from an earlier run. Pairs and scores are stated for any listing. The clean-run lemmas cover an empty starting folder.
- `natsorted` is a parameter, because its natural-sort key is library code outside this model. OfGen and GetProb require only that it reorders its input, as natural sorting does.
- Pipeline.CleanRunRasters: the clean-run lemmas (CleanRunRasters, CleanRunScore) start from the frame paths in capture order. They assume that `natsorted` leaves the capture-ordered frame paths as they are; nothing else links them to the `images` list OfGen actually pairs.
- The flow: `InputPadder`, the RAFT network and `flow_viz.flow_to_image` are one parameter from a pair of frame paths to an image. Their source is not part of this model, and the network is a foreign call. Model loading, `DataParallel`, device placement and `torch.no_grad` are left out for the same reason.
- The classifier: `get_network`, weight loading, `CenterCrop`, `ToTensor`, `normalize` and the sigmoid are folded into the `classify` parameter. These are floating-point tensor operations in libraries.
- Floating-point rounding in the sum and the division is not modelled; probabilities are exact reals.
- Outputs with no effect on the result are left out: `tqdm` progress bars, `print`, `img_flo` in `viz`, and `original_file_list` in `get_prob` (computed, then never used).
- Scoring.AverageProbability: also returns the final `optical_prob_sum` and `count`, which `get_prob` keeps local. They are returned only so the loop's contract can be stated.
- Pipeline.VideoToFrames: also returns the final `frame_count`, which the source discards. It is returned only so its contract can be stated.
