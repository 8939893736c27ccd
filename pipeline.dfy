/** The orchestration in optical_flow/demo.py: the working folders `Args`
    derives from the video path, frame extraction (`video_to_frames`), one
    flow raster per adjacent frame pair (`OF_gen`, `viz`) and the video
    score (`get_prob`). The decoder, the flow network with its colour
    encoding, the classifier, `glob` and `natsorted` are parameters. */
module Pipeline {
  import opened PyText
  import opened FrameNaming
  import opened FramePairs
  import opened Scoring

  /** The bytes of an image file as `cv2.imwrite` stores it. */
  type Image = seq<bv8>

  // ---------------------------------------------------------------------
  // Args
  // ---------------------------------------------------------------------

  /** The settings object `Args.__init__` builds; nothing updates it later. */
  datatype Args = Args(
    model: string,
    path: string,
    folderOriginalPath: string,
    small: bool,
    mixedPrecision: bool,
    alternateCorr: bool,
    folderOpticalFlowPath: string,
    modelOpticalFlowPath: string,
    useCpu: bool,
    augNorm: bool,
    dropout: bool,
    arch: string)

  /** `Args(path_input, ...)`: the frames of a video go to `frame/<name>`
      and its flow rasters to `optical_result/<name>`, where `<name>` is
      the last component of the video path. */
  function MakeArgs(pathInput: string, small: bool := false, mixedPrecision: bool := false,
                    alternateCorr: bool := false, useCpu: bool := true, augNorm: bool := true,
                    dropout: bool := true): (a: Args)
    ensures a.path == pathInput
    ensures "frame/" <= a.folderOriginalPath && Basename(a.folderOriginalPath) == Basename(pathInput)
    ensures "optical_result/" <= a.folderOpticalFlowPath && Basename(a.folderOpticalFlowPath) == Basename(pathInput)
    ensures a.folderOriginalPath != a.folderOpticalFlowPath
  {
    var fileName := Basename(pathInput);
    BasenameAfterSlash("frame/", fileName);
    BasenameAfterSlash("optical_result/", fileName);
    var a := Args(
      model := "raft_model/raft-things.pth",
      path := pathInput,
      folderOriginalPath := "frame/" + fileName,
      small := small,
      mixedPrecision := mixedPrecision,
      alternateCorr := alternateCorr,
      folderOpticalFlowPath := "optical_result/" + fileName,
      modelOpticalFlowPath := "checkpoints/optical.pth",
      useCpu := useCpu,
      augNorm := augNorm,
      dropout := dropout,
      arch := "resnet50");
    assert a.folderOriginalPath[1] == 'r' != a.folderOpticalFlowPath[1];
    a
  }

  /** Two videos share working folders exactly when their paths end in the
      same component, whatever directories they sit in. */
  lemma WorkingFoldersShareBasename(p: string, q: string)
    ensures MakeArgs(p).folderOriginalPath == MakeArgs(q).folderOriginalPath <==> Basename(p) == Basename(q)
    ensures MakeArgs(p).folderOpticalFlowPath == MakeArgs(q).folderOpticalFlowPath <==> Basename(p) == Basename(q)
  {
    var a, b := MakeArgs(p), MakeArgs(q);
    if a.folderOriginalPath == b.folderOriginalPath {
      assert Basename(p) == a.folderOriginalPath[6..] == b.folderOriginalPath[6..] == Basename(q);
    }
    if a.folderOpticalFlowPath == b.folderOpticalFlowPath {
      assert Basename(p) == a.folderOpticalFlowPath[15..] == b.folderOpticalFlowPath[15..] == Basename(q);
    }
  }

  // ---------------------------------------------------------------------
  // The raster path written by viz
  // ---------------------------------------------------------------------

  /** The path `viz` writes the raster of a pair to: the output folder, a
      '/', and the stripped last component of the pair's FIRST frame, so
      the raster always lands directly in that folder. */
  function RasterPath(folder: string, imfile1: string): (r: string)
    ensures folder + "/" <= r && '/' !in r[|folder| + 1..]
  {
    StripKeepsOut(Basename(imfile1), '/');
    assert (folder + "/" + Strip(Basename(imfile1)))[|folder| + 1..] == Strip(Basename(imfile1));
    folder + "/" + Strip(Basename(imfile1))
  }

  /** In one folder, two frames get the same raster path exactly when their
      stripped file names agree; the directory part of the frame paths
      plays no role. */
  lemma RasterPathInjective(folder: string, a: string, b: string)
    ensures RasterPath(folder, a) == RasterPath(folder, b) <==> Strip(Basename(a)) == Strip(Basename(b))
  {
    var n := |folder| + 1;
    if RasterPath(folder, a) == RasterPath(folder, b) {
      assert Strip(Basename(a)) == RasterPath(folder, a)[n..] == RasterPath(folder, b)[n..] == Strip(Basename(b));
    }
  }

  /** Distinct file names are not enough for distinct raster paths:
      `strip()` maps " a.png" and "a.png" to the same raster. */
  lemma RasterPathWhitespaceCollision()
    ensures Basename("d/ a.png") != Basename("d/a.png")
    ensures RasterPath("out", "d/ a.png") == RasterPath("out", "d/a.png")
  {
    BasenameAfterSlash("d/", " a.png");
    BasenameAfterSlash("d/", "a.png");
    assert "d/ a.png" == "d/" + " a.png" && "d/a.png" == "d/" + "a.png";
    assert StripLeft(" a.png") == StripLeft("a.png");
  }

  /** The raster of a pair whose first frame came from `video_to_frames` is
      named after that frame. */
  lemma RasterPathOfFrame(opticalFolder: string, frameFolder: string, k: nat)
    ensures RasterPath(opticalFolder, FramePath(frameFolder, k)) == opticalFolder + "/" + FrameName(k)
  {
    FrameNameShape(k);
    BasenameOfJoin(frameFolder, FrameName(k));
  }

  // ---------------------------------------------------------------------
  // The files the pipeline writes
  // ---------------------------------------------------------------------

  /** The files on disk, by path. Only writes are modelled: directories,
      permissions and read errors are not. */
  class FileSystem {
    var files: map<string, Image>

    constructor (initial: map<string, Image>)
      ensures files == initial
    {
      files := initial;
    }

    /** `cv2.imwrite(path, data)`: creates or overwrites one file. */
    method Write(path: string, data: Image)
      modifies this
      ensures files == old(files)[path := data]
    {
      files := files[path := data];
    }
  }

  /** No path occurs twice. */
  predicate Distinct(keys: seq<string>)
  {
    forall i, j :: 0 <= i < j < |keys| ==> keys[i] != keys[j]
  }

  /** The files a run of writes leaves behind, `vals[k]` written to
      `keys[k]` in order, so that a later write to a path replaces an
      earlier one. */
  function Writes(keys: seq<string>, vals: seq<Image>): (m: map<string, Image>)
    requires |keys| == |vals|
    ensures m.Keys == set p | p in keys
  {
    if keys == [] then map[]
    else
      var n := |keys| - 1;
      assert keys == keys[..n] + [keys[n]];
      Writes(keys[..n], vals[..n])[keys[n] := vals[n]]
  }

  lemma WritesAppend(keys: seq<string>, vals: seq<Image>, key: string, val: Image)
    requires |keys| == |vals|
    ensures Writes(keys + [key], vals + [val]) == Writes(keys, vals)[key := val]
  {
    assert (keys + [key])[..|keys|] == keys;
    assert (vals + [val])[..|vals|] == vals;
  }

  /** When no path is written twice, every write survives: one file per
      write, holding what was written to it. */
  lemma {:induction false} WritesDistinct(keys: seq<string>, vals: seq<Image>)
    requires |keys| == |vals| && Distinct(keys)
    ensures |Writes(keys, vals)| == |keys|
    ensures forall k :: 0 <= k < |keys| ==> Writes(keys, vals)[keys[k]] == vals[k]
  {
    if keys != [] {
      var n := |keys| - 1;
      DistinctFront(keys);
      WritesDistinct(keys[..n], vals[..n]);
      forall k | 0 <= k < n
        ensures Writes(keys, vals)[keys[k]] == vals[k]
      {
        assert keys[..n][k] == keys[k] && vals[..n][k] == vals[k];
      }
    }
  }

  /** Dropping the last path keeps the rest distinct, and the last path is
      not among the rest. */
  lemma DistinctFront(keys: seq<string>)
    requires keys != [] && Distinct(keys)
    ensures Distinct(keys[..|keys| - 1]) && keys[|keys| - 1] !in keys[..|keys| - 1]
  {
  }

  /** Writing a file after merging in a batch of files is the same as
      writing it as the last file of the batch. */
  lemma MergeThenWrite(files: map<string, Image>, batch: map<string, Image>, path: string, data: Image)
    ensures (files + batch)[path := data] == files + batch[path := data]
  {
  }

  /** The files `video_to_frames` writes for the frames it reads: frame k
      under `FramePath(folder, k)`. */
  function FrameFiles(folder: string, frames: seq<Image>): map<string, Image>
  {
    Writes(FramePaths(folder, |frames|), frames)
  }

  lemma FramePathsDistinct(folder: string, n: nat)
    ensures Distinct(FramePaths(folder, n))
  {
    forall i, j | 0 <= i < j < n
      ensures FramePath(folder, i) != FramePath(folder, j)
    {
      FramePathInjective(folder, i, j);
    }
  }

  lemma FrameFilesStep(folder: string, frames: seq<Image>, frame: Image)
    ensures FrameFiles(folder, frames + [frame]) == FrameFiles(folder, frames)[FramePath(folder, |frames|) := frame]
  {
    assert FramePaths(folder, |frames| + 1) == FramePaths(folder, |frames|) + [FramePath(folder, |frames|)];
    WritesAppend(FramePaths(folder, |frames|), frames, FramePath(folder, |frames|), frame);
  }

  /** Reading n frames leaves n new files, frame k under the k-th frame
      path, and no other file. */
  lemma FrameFilesContent(folder: string, frames: seq<Image>)
    ensures var m := FrameFiles(folder, frames);
      && m.Keys == set p | p in FramePaths(folder, |frames|)
      && |m| == |frames|
      && forall k :: 0 <= k < |frames| ==> FramePath(folder, k) in m && m[FramePath(folder, k)] == frames[k]
  {
    FramePathsAt(folder, |frames|);
    FramePathsDistinct(folder, |frames|);
    WritesDistinct(FramePaths(folder, |frames|), frames);
  }

  /** `video_to_frames(video_path, output_folder)`. The decoder is given as
      `isOpened` (whether `cv2.VideoCapture` could open the video) and
      `decoded` (the frames `cap.read()` returns before its first failure);
      `listing` is what the two `glob` calls return after the writes.
      Also returns the final `frame_count`, which the source discards. */
  method VideoToFrames(fs: FileSystem, isOpened: bool, decoded: seq<Image>, outputFolder: string,
                       listing: seq<string>)
    returns (frameCount: nat, images: seq<string>)
    modifies fs
    ensures frameCount == if isOpened then |decoded| else 0
    ensures fs.files == old(fs.files) + FrameFiles(outputFolder, decoded[..frameCount])
    ensures images == SortStrings(listing)
  {
    frameCount := 0;
    assert decoded[..0] == [] && FramePaths(outputFolder, 0) == [];
    while isOpened
      invariant frameCount <= |decoded|
      invariant !isOpened ==> frameCount == 0
      invariant fs.files == old(fs.files) + FrameFiles(outputFolder, decoded[..frameCount])
      decreases |decoded| - frameCount
    {
      // cap.read() reports failure once the decodable frames are used up
      if frameCount == |decoded| {
        break;
      }
      var frame := decoded[frameCount];
      var frameFilename := FramePath(outputFolder, frameCount);
      ghost var written := FrameFiles(outputFolder, decoded[..frameCount]);
      fs.Write(frameFilename, frame);
      FrameFilesStep(outputFolder, decoded[..frameCount], frame);
      MergeThenWrite(old(fs.files), written, frameFilename, frame);
      assert decoded[..frameCount + 1] == decoded[..frameCount] + [frame];
      frameCount := frameCount + 1;
    }
    images := SortStrings(listing);
  }

  /** The writing part of `viz`: the colour-encoded flow `flo` goes to the
      raster path derived from the pair's first frame. */
  method Viz(fs: FileSystem, flo: Image, folderOpticalFlowPath: string, imfile1: string)
    modifies fs
    ensures fs.files == old(fs.files)[RasterPath(folderOpticalFlowPath, imfile1) := flo]
  {
    var content := Basename(imfile1);
    var path := folderOpticalFlowPath + "/" + Strip(content);
    fs.Write(path, flo);
  }

  /** The raster paths of a list of pairs, pair by pair. */
  function RasterKeys(folder: string, pairs: seq<(string, string)>): seq<string>
  {
    seq(|pairs|, k requires 0 <= k < |pairs| => RasterPath(folder, pairs[k].0))
  }

  /** The flow raster of each pair, pair by pair. `flow` stands for loading
      both frames, padding them, running the flow network and
      colour-encoding its output. */
  function RasterValues(pairs: seq<(string, string)>, flow: (string, string) -> Image): seq<Image>
  {
    seq(|pairs|, k requires 0 <= k < |pairs| => flow(pairs[k].0, pairs[k].1))
  }

  /** Pair k contributes the k-th raster path. */
  lemma RasterKeysAt(folder: string, pairs: seq<(string, string)>)
    ensures |RasterKeys(folder, pairs)| == |pairs|
    ensures forall k :: 0 <= k < |pairs| ==> RasterKeys(folder, pairs)[k] == RasterPath(folder, pairs[k].0)
  {
  }

  /** Pair k contributes the k-th raster. */
  lemma RasterValuesAt(pairs: seq<(string, string)>, flow: (string, string) -> Image)
    ensures |RasterValues(pairs, flow)| == |pairs|
    ensures forall k :: 0 <= k < |pairs| ==> RasterValues(pairs, flow)[k] == flow(pairs[k].0, pairs[k].1)
  {
  }

  /** The rasters `OF_gen` writes for a list of pairs, in order; a later
      pair whose first frame has the same stripped name overwrites an
      earlier one. */
  function RasterFiles(folder: string, pairs: seq<(string, string)>, flow: (string, string) -> Image)
    : (m: map<string, Image>)
    ensures m.Keys == set p | p in RasterKeys(folder, pairs)
  {
    Writes(RasterKeys(folder, pairs), RasterValues(pairs, flow))
  }

  lemma RasterFilesStep(folder: string, pairs: seq<(string, string)>, pair: (string, string),
                        flow: (string, string) -> Image)
    ensures RasterFiles(folder, pairs + [pair], flow)
         == RasterFiles(folder, pairs, flow)[RasterPath(folder, pair.0) := flow(pair.0, pair.1)]
  {
    assert RasterKeys(folder, pairs + [pair]) == RasterKeys(folder, pairs) + [RasterPath(folder, pair.0)];
    assert RasterValues(pairs + [pair], flow) == RasterValues(pairs, flow) + [flow(pair.0, pair.1)];
    WritesAppend(RasterKeys(folder, pairs), RasterValues(pairs, flow), RasterPath(folder, pair.0), flow(pair.0, pair.1));
  }

  /** First frames whose stripped file names all differ. */
  predicate DistinctFirstNames(pairs: seq<(string, string)>)
  {
    forall i, j :: 0 <= i < j < |pairs| ==> Strip(Basename(pairs[i].0)) != Strip(Basename(pairs[j].0))
  }

  /** When no two first frames share a stripped name, every pair keeps its
      own raster: one file per pair, holding that pair's flow. */
  lemma RasterFilesContent(folder: string, pairs: seq<(string, string)>, flow: (string, string) -> Image)
    requires DistinctFirstNames(pairs)
    ensures
      && |RasterFiles(folder, pairs, flow)| == |pairs|
      && forall k :: 0 <= k < |pairs| ==>
           && RasterPath(folder, pairs[k].0) in RasterFiles(folder, pairs, flow)
           && RasterFiles(folder, pairs, flow)[RasterPath(folder, pairs[k].0)] == flow(pairs[k].0, pairs[k].1)
  {
    var keys, vals := RasterKeys(folder, pairs), RasterValues(pairs, flow);
    RasterKeysAt(folder, pairs);
    RasterValuesAt(pairs, flow);
    assert Distinct(keys) by {
      forall i, j | 0 <= i < j < |pairs|
        ensures keys[i] != keys[j]
      {
        RasterPathInjective(folder, pairs[i].0, pairs[j].0);
      }
    }
    WritesDistinct(keys, vals);
  }

  /** The loop of `OF_gen`: for each pair in order, compute its flow and
      write it through `viz`. */
  method WriteRasters(fs: FileSystem, folderOpticalFlowPath: string, pairs: seq<(string, string)>,
                      flow: (string, string) -> Image)
    modifies fs
    ensures fs.files == old(fs.files) + RasterFiles(folderOpticalFlowPath, pairs, flow)
  {
    for i := 0 to |pairs|
      invariant fs.files == old(fs.files) + RasterFiles(folderOpticalFlowPath, pairs[..i], flow)
    {
      var (imfile1, imfile2) := pairs[i];
      var flo := flow(imfile1, imfile2);
      Viz(fs, flo, folderOpticalFlowPath, imfile1);
      assert pairs[..i + 1] == pairs[..i] + [pairs[i]];
      RasterFilesStep(folderOpticalFlowPath, pairs[..i], pairs[i], flow);
      MergeThenWrite(old(fs.files), RasterFiles(folderOpticalFlowPath, pairs[..i], flow),
                     RasterPath(folderOpticalFlowPath, imfile1), flo);
    }
    assert pairs[..|pairs|] == pairs;
  }

  /** `OF_gen(args)`: extract the frames, order the listing with `sorted`
      and then `natsorted` (given as `natsort`, which only reorders), and
      write one raster per adjacent pair through `viz`. Every listed file,
      stale ones included, takes part in the pairing. Returns the list the
      pairs were formed from. */
  method OfGen(fs: FileSystem, args: Args, isOpened: bool, decoded: seq<Image>, listing: seq<string>,
               natsort: seq<string> -> seq<string>, flow: (string, string) -> Image)
    returns (images: seq<string>)
    requires forall s :: multiset(natsort(s)) == multiset(s)
    modifies fs
    ensures images == natsort(SortStrings(listing))
    ensures multiset(images) == multiset(listing)
    ensures |AdjacentPairs(images)| == if |listing| == 0 then 0 else |listing| - 1
    ensures fs.files == old(fs.files)
                        + FrameFiles(args.folderOriginalPath, if isOpened then decoded else [])
                        + RasterFiles(args.folderOpticalFlowPath, AdjacentPairs(images), flow)
  {
    var frameCount;
    frameCount, images := VideoToFrames(fs, isOpened, decoded, args.folderOriginalPath, listing);
    assert decoded[..frameCount] == if isOpened then decoded else [];
    images := natsort(images);
    assert |images| == |multiset(images)| == |multiset(listing)| == |listing|;
    WriteRasters(fs, args.folderOpticalFlowPath, AdjacentPairs(images), flow);
  }

  /** `get_prob(path_input)`: build the settings, generate the rasters,
      then score the sorted listing of the raster folder (`opticalListing`,
      what the three `glob` calls return) with the classifier (`classify`,
      which includes the crop, normalisation and sigmoid). */
  method GetProb(fs: FileSystem, pathInput: string, isOpened: bool, decoded: seq<Image>,
                 frameListing: seq<string>, natsort: seq<string> -> seq<string>,
                 flow: (string, string) -> Image, opticalListing: seq<string>,
                 classify: string -> real)
    returns (opticalPredict: Result<real>)
    requires forall s :: multiset(natsort(s)) == multiset(s)
    modifies fs
    ensures var args := MakeArgs(pathInput);
      fs.files == old(fs.files)
                  + FrameFiles(args.folderOriginalPath, if isOpened then decoded else [])
                  + RasterFiles(args.folderOpticalFlowPath, AdjacentPairs(natsort(SortStrings(frameListing))), flow)
    ensures opticalPredict == Mean(Probabilities(opticalListing, classify))
  {
    var args := MakeArgs(pathInput);
    var images := OfGen(fs, args, isOpened, decoded, frameListing, natsort, flow);
    var opticalFileList := SortStrings(opticalListing);
    var opticalProbSum, count;
    opticalProbSum, count, opticalPredict := AverageProbability(opticalFileList, classify);
    ScoreIgnoresListingOrder(opticalFileList, opticalListing, classify);
  }

  // ---------------------------------------------------------------------
  // A run on clean working folders
  // ---------------------------------------------------------------------

  /** The raster paths of a clean run with n frames, in pair order: pair k
      is named after frame k. */
  function RasterPathsInOrder(opticalFolder: string, n: nat): seq<string>
  {
    var pairs := if n == 0 then 0 else n - 1;
    seq(pairs, k requires 0 <= k < pairs => opticalFolder + "/" + FrameName(k))
  }

  /** Raster k of a clean run is named after frame k. */
  lemma RasterPathsInOrderAt(opticalFolder: string, n: nat)
    ensures |RasterPathsInOrder(opticalFolder, n)| == if n == 0 then 0 else n - 1
    ensures forall k :: 0 <= k < |RasterPathsInOrder(opticalFolder, n)| ==>
      RasterPathsInOrder(opticalFolder, n)[k] == opticalFolder + "/" + FrameName(k)
  {
  }

  /** In a clean run the raster paths of the pairs are the frame-named
      paths in pair order, and no two first frames share a stripped name. */
  lemma CleanRunKeys(frameFolder: string, opticalFolder: string, n: nat)
    ensures var pairs := AdjacentPairs(FramePaths(frameFolder, n));
      && RasterKeys(opticalFolder, pairs) == RasterPathsInOrder(opticalFolder, n)
      && DistinctFirstNames(pairs)
  {
    var pairs := AdjacentPairs(FramePaths(frameFolder, n));
    var paths := RasterPathsInOrder(opticalFolder, n);
    FramePathsAt(frameFolder, n);
    RasterPathsInOrderAt(opticalFolder, n);
    RasterKeysAt(opticalFolder, pairs);
    forall k | 0 <= k < |pairs|
      ensures RasterKeys(opticalFolder, pairs)[k] == paths[k]
      ensures Strip(Basename(pairs[k].0)) == FrameName(k)
    {
      RasterPathOfFrame(opticalFolder, frameFolder, k);
      FrameNameShape(k);
      BasenameOfJoin(frameFolder, FrameName(k));
    }
    forall i, j | 0 <= i < j < |pairs|
      ensures Strip(Basename(pairs[i].0)) != Strip(Basename(pairs[j].0))
    {
      FrameNameInjective(i, j);
    }
  }

  /** With n frames extracted into an otherwise empty folder and the listing
      in capture order, there are max(n - 1, 0) pairs; the raster of pair k
      is named after frame k and holds the flow from frame k to frame k + 1;
      the rasters are distinct, one per pair, and no other raster exists. */
  lemma CleanRunRasters(frameFolder: string, opticalFolder: string, n: nat, flow: (string, string) -> Image)
    ensures var pairs := AdjacentPairs(FramePaths(frameFolder, n));
      var m := RasterFiles(opticalFolder, pairs, flow);
      var paths := RasterPathsInOrder(opticalFolder, n);
      && |pairs| == |paths|
      && m.Keys == (set p | p in paths)
      && |m| == |pairs|
      && forall k :: 0 <= k < |pairs| ==> m[paths[k]] == flow(FramePath(frameFolder, k), FramePath(frameFolder, k + 1))
  {
    var pairs := AdjacentPairs(FramePaths(frameFolder, n));
    FramePathsAt(frameFolder, n);
    RasterKeysAt(opticalFolder, pairs);
    RasterValuesAt(pairs, flow);
    CleanRunKeys(frameFolder, opticalFolder, n);
    RasterFilesContent(opticalFolder, pairs, flow);
  }

  /** Scoring a clean run: whatever order `glob` lists the rasters in,
      `sorted()` puts them in pair order (for at most 100000 frames), and
      the score is the mean over exactly n - 1 probabilities; with fewer
      than two frames there is nothing to divide by and the score fails. */
  lemma CleanRunScore(opticalFolder: string, n: nat, opticalListing: seq<string>, classify: string -> real)
    requires n <= Pow10(Width)
    requires multiset(opticalListing) == multiset(RasterPathsInOrder(opticalFolder, n))
    ensures SortStrings(opticalListing) == RasterPathsInOrder(opticalFolder, n)
    ensures Mean(Probabilities(opticalListing, classify)).Failure? <==> n <= 1
  {
    var paths := RasterPathsInOrder(opticalFolder, n);
    forall i, j | 0 <= i < j < |paths|
      ensures LexLt(paths[i], paths[j])
    {
      FrameNameOrder(i, j);
      LexCommonPrefix(opticalFolder + "/", FrameName(i), FrameName(j));
    }
    SortOfAscending(opticalListing, paths);
    assert |opticalListing| == |multiset(opticalListing)| == |paths|;
  }
}
