/** Pairing label maps with reference images and choosing the resampling
    (data_utils/conform_labels.py): a subject id is the part of a file's
    base name before its first dot, a label map goes with the first image
    whose id contains its id or is contained in it, and every pair is
    resampled by the method named on the command line. The resampling and
    the volume I/O are library calls. */
module ConformLabels {
  import opened Wrappers
  import opened PyStr
  import opened Paths

  /** `s.split('.')[0]`: everything before the first dot, or all of `s`. */
  function BeforeFirstDot(s: string): (r: string)
    ensures |r| <= |s| && '.' !in r
    ensures |r| < |s| ==> s[|r|] == '.'
  {
    if s == [] || s[0] == '.' then []
    else [s[0]] + BeforeFirstDot(s[1..])
  }

  /** The part before the first dot is a prefix. */
  lemma {:induction false} BeforeFirstDotPrefix(s: string)
    ensures StartsWith(s, BeforeFirstDot(s))
  {
    if s != [] && s[0] != '.' {
      BeforeFirstDotPrefix(s[1..]);
      assert s == [s[0]] + s[1..];
    }
  }

  /** `os.path.basename(path).split('.')[0]`. */
  function SubjectId(path: string): string {
    BeforeFirstDot(Basename(path))
  }

  /** `label_id in image_id or image_id in label_id`. */
  predicate IdsMatch(labelId: string, imageId: string) {
    Contains(imageId, labelId) || Contains(labelId, imageId)
  }

  /** The position of the first image whose subject id matches `labelId`,
      or the number of images when none does. */
  function FirstMatch(labelId: string, imageFiles: seq<string>): (k: nat)
    ensures k <= |imageFiles|
  {
    if imageFiles == [] then 0
    else if IdsMatch(labelId, SubjectId(imageFiles[0])) then 0
    else 1 + FirstMatch(labelId, imageFiles[1..])
  }

  /** The image at the first matching position matches, and none before it
      does. */
  lemma {:induction false} FirstMatchSpec(labelId: string, imageFiles: seq<string>)
    ensures var k := FirstMatch(labelId, imageFiles);
            && (k < |imageFiles| ==> IdsMatch(labelId, SubjectId(imageFiles[k])))
            && (forall j :: 0 <= j < k ==> !IdsMatch(labelId, SubjectId(imageFiles[j])))
  {
    if imageFiles != [] && !IdsMatch(labelId, SubjectId(imageFiles[0])) {
      var tail := imageFiles[1..];
      FirstMatchSpec(labelId, tail);
      var k := FirstMatch(labelId, tail);
      assert forall j :: 1 <= j < k + 1 ==> tail[j - 1] == imageFiles[j];
    }
  }

  /** The first matching position is the one the scan stops at. */
  lemma FirstMatchAt(labelId: string, imageFiles: seq<string>, j: nat)
    requires j <= |imageFiles|
    requires j < |imageFiles| ==> IdsMatch(labelId, SubjectId(imageFiles[j]))
    requires forall k :: 0 <= k < j ==> !IdsMatch(labelId, SubjectId(imageFiles[k]))
    ensures FirstMatch(labelId, imageFiles) == j
  {
    FirstMatchSpec(labelId, imageFiles);
  }

  /** The image a label file is paired with: the first image whose subject
      id contains the label file's or is contained in it, or none. */
  function PairedImage(labelFile: string, imageFiles: seq<string>): (r: Option<string>)
    ensures r.None? <==> FirstMatch(SubjectId(labelFile), imageFiles) == |imageFiles|
  {
    var k := FirstMatch(SubjectId(labelFile), imageFiles);
    if k < |imageFiles| then Some(imageFiles[k]) else None
  }

  /** A label file and an image file are of the same subject. */
  predicate SameSubject(labelFile: string, imageFile: string) {
    IdsMatch(SubjectId(labelFile), SubjectId(imageFile))
  }

  /** When a label file is paired, its image is of the same subject and no
      earlier image is. */
  lemma PairedImageSome(labelFile: string, imageFiles: seq<string>)
    requires PairedImage(labelFile, imageFiles).Some?
    ensures var k := FirstMatch(SubjectId(labelFile), imageFiles);
            && k < |imageFiles|
            && PairedImage(labelFile, imageFiles) == Some(imageFiles[k])
            && SameSubject(labelFile, imageFiles[k])
            && forall j :: 0 <= j < k ==> !SameSubject(labelFile, imageFiles[j])
  {
    FirstMatchSpec(SubjectId(labelFile), imageFiles);
  }

  /** The first image of the same subject is the paired image. */
  lemma PairedImageFirst(labelFile: string, imageFiles: seq<string>, k: nat)
    requires k < |imageFiles| && SameSubject(labelFile, imageFiles[k])
    requires forall j :: 0 <= j < k ==> !SameSubject(labelFile, imageFiles[j])
    ensures PairedImage(labelFile, imageFiles) == Some(imageFiles[k])
  {
    FirstMatchAt(SubjectId(labelFile), imageFiles, k);
  }

  /** A label file is unpaired exactly when no image is of its subject. */
  lemma PairedImageNone(labelFile: string, imageFiles: seq<string>)
    ensures PairedImage(labelFile, imageFiles).None? <==>
              forall j :: 0 <= j < |imageFiles| ==> !SameSubject(labelFile, imageFiles[j])
  {
    FirstMatchSpec(SubjectId(labelFile), imageFiles);
    if forall j :: 0 <= j < |imageFiles| ==> !SameSubject(labelFile, imageFiles[j]) {
      FirstMatchAt(SubjectId(labelFile), imageFiles, |imageFiles|);
    }
  }

  /** The values `f` yields over `xs`, in order, skipping the elements it
      yields nothing for. */
  function Collect<A, B>(xs: seq<A>, f: A -> Option<B>): (ys: seq<B>)
    ensures |ys| <= |xs|
  {
    if xs == [] then []
    else
      var n := |xs| - 1;
      Collect(xs[..n], f) + Yield(f(xs[n]))
  }

  /** The value of an option, if any, as a sequence. */
  function Yield<B>(o: Option<B>): (ys: seq<B>)
    ensures o.None? ==> ys == []
    ensures o.Some? ==> ys == [o.value]
  {
    match o
    case None => []
    case Some(y) => [y]
  }

  lemma CollectStep<A, B>(xs: seq<A>, f: A -> Option<B>, i: nat)
    requires i < |xs|
    ensures Collect(xs[..i + 1], f) == Collect(xs[..i], f) + Yield(f(xs[i]))
  {
    assert xs[..i + 1][..i] == xs[..i];
  }

  /** Every value `f` yields is collected. */
  lemma {:induction false} CollectHas<A, B>(xs: seq<A>, f: A -> Option<B>, i: nat)
    requires i < |xs| && f(xs[i]).Some?
    ensures f(xs[i]).value in Collect(xs, f)
  {
    var n := |xs| - 1;
    if i < n {
      CollectHas(xs[..n], f, i);
      assert xs[..n][i] == xs[i];
    }
  }

  /** Every collected value is yielded by `f` on some element. */
  lemma {:induction false} CollectFrom<A, B>(xs: seq<A>, f: A -> Option<B>, y: B)
    requires y in Collect(xs, f)
    ensures exists i :: 0 <= i < |xs| && f(xs[i]) == Some(y)
  {
    var n := |xs| - 1;
    if f(xs[n]) != Some(y) {
      CollectFrom(xs[..n], f, y);
      var i :| 0 <= i < n && f(xs[..n][i]) == Some(y);
      assert f(xs[i]) == Some(y);
    }
  }

  lemma {:induction false} CollectAppend<A, B>(a: seq<A>, b: seq<A>, f: A -> Option<B>)
    ensures Collect(a + b, f) == Collect(a, f) + Collect(b, f)
  {
    if b == [] {
      assert a + b == a;
    } else {
      var n := |b| - 1;
      assert (a + b)[..|a + b| - 1] == a + b[..n];
      assert (a + b)[|a + b| - 1] == b[n];
      CollectAppend(a, b[..n], f);
    }
  }

  /** The pair a label file contributes: itself with its paired image. */
  function LabelPair(imageFiles: seq<string>, labelFile: string): (r: Option<(string, string)>)
    ensures r.Some? ==> r.value.0 == labelFile && PairedImage(labelFile, imageFiles) == Some(r.value.1)
    ensures r.None? <==> PairedImage(labelFile, imageFiles).None?
  {
    match PairedImage(labelFile, imageFiles)
    case None => None
    case Some(imageFile) => Some((labelFile, imageFile))
  }

  function Pairing(imageFiles: seq<string>): string -> Option<(string, string)> {
    labelFile => LabelPair(imageFiles, labelFile)
  }

  /** The pairs `match_subject_ids` returns: one per label file that has a
      matching image, in label-file order. */
  function MatchedPairs(labelFiles: seq<string>, imageFiles: seq<string>): (pairs: seq<(string, string)>)
    ensures |pairs| <= |labelFiles|
  {
    Collect(labelFiles, Pairing(imageFiles))
  }

  /** A (label, image) pair is returned exactly when the label file is
      listed and the image is its paired image: an unmatched label file is
      dropped, and an image may go with several label files. */
  lemma MatchedPairsMembers(labelFiles: seq<string>, imageFiles: seq<string>, labelFile: string, imageFile: string)
    ensures (labelFile, imageFile) in MatchedPairs(labelFiles, imageFiles) <==>
              labelFile in labelFiles && PairedImage(labelFile, imageFiles) == Some(imageFile)
  {
    var f := Pairing(imageFiles);
    var pair := (labelFile, imageFile);
    if pair in MatchedPairs(labelFiles, imageFiles) {
      CollectFrom(labelFiles, f, pair);
      var i :| 0 <= i < |labelFiles| && f(labelFiles[i]) == Some(pair);
      assert LabelPair(imageFiles, labelFiles[i]) == Some(pair);
    }
    if labelFile in labelFiles && PairedImage(labelFile, imageFiles) == Some(imageFile) {
      var i :| 0 <= i < |labelFiles| && labelFiles[i] == labelFile;
      assert f(labelFiles[i]) == Some(pair);
      CollectHas(labelFiles, f, i);
    }
  }

  /** Pairing two lists of label files one after the other gives the pairs
      of the first list followed by those of the second: the pairs follow
      label-file order. */
  lemma MatchedPairsAppend(a: seq<string>, b: seq<string>, imageFiles: seq<string>)
    ensures MatchedPairs(a + b, imageFiles) == MatchedPairs(a, imageFiles) + MatchedPairs(b, imageFiles)
  {
    CollectAppend(a, b, Pairing(imageFiles));
  }

  /** Pairing one more label file appends its pair, if it has one. */
  lemma MatchedPairsStep(labelFiles: seq<string>, imageFiles: seq<string>, i: nat)
    requires i < |labelFiles|
    ensures LabelPair(imageFiles, labelFiles[i]).None? ==>
              MatchedPairs(labelFiles[..i + 1], imageFiles) == MatchedPairs(labelFiles[..i], imageFiles)
    ensures LabelPair(imageFiles, labelFiles[i]).Some? ==>
              MatchedPairs(labelFiles[..i + 1], imageFiles) ==
                MatchedPairs(labelFiles[..i], imageFiles) + [LabelPair(imageFiles, labelFiles[i]).value]
  {
    var f := Pairing(imageFiles);
    CollectStep(labelFiles, f, i);
    assert f(labelFiles[i]) == LabelPair(imageFiles, labelFiles[i]);
  }

  /** The pair of a label file whose first match is image `j`. */
  lemma LabelPairAt(labelFile: string, imageFiles: seq<string>, j: nat)
    requires j == FirstMatch(SubjectId(labelFile), imageFiles)
    ensures j < |imageFiles| ==> LabelPair(imageFiles, labelFile) == Some((labelFile, imageFiles[j]))
    ensures j >= |imageFiles| ==> LabelPair(imageFiles, labelFile) == None
  {
  }

  /** The inner scan of `match_subject_ids`: the index of the first image
      whose subject id matches `labelId`, or the number of images when
      there is none. */
  method ScanImages(labelId: string, imageFiles: seq<string>) returns (j: nat)
    ensures j == FirstMatch(labelId, imageFiles)
  {
    j := 0;
    while j < |imageFiles|
      invariant 0 <= j <= |imageFiles|
      invariant forall k :: 0 <= k < j ==> !IdsMatch(labelId, SubjectId(imageFiles[k]))
    {
      var imageId := SubjectId(imageFiles[j]);
      if IdsMatch(labelId, imageId) {
        FirstMatchAt(labelId, imageFiles, j);
        return;
      }
      j := j + 1;
    }
    FirstMatchAt(labelId, imageFiles, j);
  }

  /** `match_subject_ids`: for each label file, scan the images and keep
      the first match. */
  method MatchSubjectIds(labelFiles: seq<string>, imageFiles: seq<string>) returns (matchedPairs: seq<(string, string)>)
    ensures matchedPairs == MatchedPairs(labelFiles, imageFiles)
  {
    matchedPairs := [];
    var i := 0;
    while i < |labelFiles|
      invariant 0 <= i <= |labelFiles|
      invariant matchedPairs == MatchedPairs(labelFiles[..i], imageFiles)
    {
      var labelFile := labelFiles[i];
      var j := ScanImages(SubjectId(labelFile), imageFiles);
      LabelPairAt(labelFile, imageFiles, j);
      MatchedPairsStep(labelFiles, imageFiles, i);
      if j < |imageFiles| {
        matchedPairs := matchedPairs + [(labelFile, imageFiles[j])];
      }
      i := i + 1;
    }
    assert labelFiles[..i] == labelFiles;
  }

  /** The two resampling methods. */
  datatype Resampling = NearestNeighbour | OneHotLinear

  /** The `method` dispatch of `main`. */
  function ResamplingMethod(methodName: string): (r: Result<Resampling>)
    ensures methodName == "nn" ==> r == Ok(NearestNeighbour)
    ensures methodName == "onehot_lin" ==> r == Ok(OneHotLinear)
    ensures methodName != "nn" && methodName != "onehot_lin" ==>
              r == Err(ValueError("Invalid method. Choose 'nn' or 'onehot_lin'."))
  {
    if methodName == "nn" then Ok(NearestNeighbour)
    else if methodName == "onehot_lin" then Ok(OneHotLinear)
    else Err(ValueError("Invalid method. Choose 'nn' or 'onehot_lin'."))
  }

  /** One conformed label map: the label map, its reference image, where the
      result is saved and how it is resampled. */
  datatype LabelJob = LabelJob(labelPath: string, imagePath: string, outputPath: string, resampling: Resampling)

  /** The paths `main` builds for the NIfTI names of a listing. */
  function NiftiPaths(dir: string, listing: seq<string>): (paths: seq<string>)
    ensures |paths| == |FilterNames(listing, IsNifti)|
  {
    if listing == [] then []
    else
      var n := |listing| - 1;
      var init := NiftiPaths(dir, listing[..n]);
      if IsNifti(listing[n]) then init + [Join(dir, listing[n])] else init
  }

  /** The k-th path is the folder joined with the k-th NIfTI name, in
      listing order. */
  lemma {:induction false} NiftiPathsAt(dir: string, listing: seq<string>, k: nat)
    requires k < |FilterNames(listing, IsNifti)|
    ensures NiftiPaths(dir, listing)[k] == Join(dir, FilterNames(listing, IsNifti)[k])
  {
    var init := listing[..|listing| - 1];
    var f := listing[|listing| - 1];
    var files := FilterNames(listing, IsNifti);
    var filesInit := FilterNames(init, IsNifti);
    var paths := NiftiPaths(dir, listing);
    var pathsInit := NiftiPaths(dir, init);
    if k < |filesInit| {
      NiftiPathsAt(dir, init, k);
      assert files[k] == filesInit[k];
      assert paths[k] == pathsInit[k];
    } else {
      assert IsNifti(f) && files[k] == f;
    }
  }

  /** Where `main` saves the conformed label map of a label file: the
      output directory joined with the subject id and `.nii.gz`. */
  function OutputPath(outputDir: string, labelPath: string): string {
    Join(outputDir, SubjectId(labelPath) + ".nii.gz")
  }

  /** A dot-free word followed by a dot-led extension: the part before the
      first dot is the word. */
  lemma {:induction false} BeforeFirstDotOfStem(w: string, ext: string)
    requires '.' !in w && |ext| > 0 && ext[0] == '.'
    ensures BeforeFirstDot(w + ext) == w
  {
    if w != [] {
      assert (w + ext)[1..] == w[1..] + ext;
      BeforeFirstDotOfStem(w[1..], ext);
    }
  }

  /** The saved file has the subject id followed by `.nii.gz` as its base
      name, so it has the label file's subject id again. */
  lemma OutputPathKeepsSubject(outputDir: string, labelPath: string)
    ensures Basename(OutputPath(outputDir, labelPath)) == SubjectId(labelPath) + ".nii.gz"
    ensures SubjectId(OutputPath(outputDir, labelPath)) == SubjectId(labelPath)
  {
    var id := SubjectId(labelPath);
    var name := id + ".nii.gz";
    assert '/' !in name by {
      BeforeFirstDotPrefix(Basename(labelPath));
      assert '/' !in Basename(labelPath);
      assert forall c :: c in id ==> c in Basename(labelPath);
      assert forall i :: |id| <= i < |name| ==> name[i] == ".nii.gz"[i - |id|];
    }
    BasenameJoin(outputDir, name);
    BeforeFirstDotOfStem(id, ".nii.gz");
  }

  /** The jobs for the matched pairs, all resampled the same way. */
  function LabelJobs(pairs: seq<(string, string)>, outputDir: string, resampling: Resampling): (jobs: seq<LabelJob>)
    ensures |jobs| == |pairs|
  {
    if pairs == [] then []
    else
      var n := |pairs| - 1;
      LabelJobs(pairs[..n], outputDir, resampling)
        + [LabelJob(pairs[n].0, pairs[n].1, OutputPath(outputDir, pairs[n].0), resampling)]
  }

  /** The k-th job conforms the k-th pair's label map to its image and saves
      it under the label file's subject id. */
  lemma {:induction false} LabelJobsAt(pairs: seq<(string, string)>, outputDir: string, resampling: Resampling, k: nat)
    requires k < |pairs|
    ensures LabelJobs(pairs, outputDir, resampling)[k]
              == LabelJob(pairs[k].0, pairs[k].1, OutputPath(outputDir, pairs[k].0), resampling)
  {
    var n := |pairs| - 1;
    var init := LabelJobs(pairs[..n], outputDir, resampling);
    var last := LabelJob(pairs[n].0, pairs[n].1, OutputPath(outputDir, pairs[n].0), resampling);
    assert LabelJobs(pairs, outputDir, resampling) == init + [last];
    if k < n {
      LabelJobsAt(pairs[..n], outputDir, resampling, k);
      assert pairs[..n][k] == pairs[k];
      assert (init + [last])[k] == init[k];
    }
  }

  /** The loop of `main` over the matched pairs: the method is dispatched
      once per pair, so an invalid method raises at the first pair and is
      never noticed when nothing matched. */
  function PairJobs(pairs: seq<(string, string)>, outputDir: string, methodName: string): (r: Result<seq<LabelJob>>)
    ensures r.Err? <==> pairs != [] && ResamplingMethod(methodName).Err?
    ensures r.Err? ==> r.error == ValueError("Invalid method. Choose 'nn' or 'onehot_lin'.")
    ensures r.Ok? ==> |r.value| == |pairs|
  {
    if pairs == [] then Ok([])
    else
      match ResamplingMethod(methodName)
      case Err(e) => Err(e)
      case Ok(resampling) => Ok(LabelJobs(pairs, outputDir, resampling))
  }

  /** With a valid method every job resamples by it, pair by pair. */
  lemma PairJobsAt(pairs: seq<(string, string)>, outputDir: string, methodName: string, k: nat)
    requires ResamplingMethod(methodName).Ok? && k < |pairs|
    ensures PairJobs(pairs, outputDir, methodName).Ok?
    ensures PairJobs(pairs, outputDir, methodName).value[k]
              == LabelJob(pairs[k].0, pairs[k].1, OutputPath(outputDir, pairs[k].0), ResamplingMethod(methodName).value)
  {
    LabelJobsAt(pairs, outputDir, ResamplingMethod(methodName).value, k);
  }

  /** `main` for two listings: pair the NIfTI label files with the NIfTI
      images, then conform pair by pair. */
  function ConformLabelsPlan(inputLabels: string, inputImages: string, outputDir: string, methodName: string,
                             labelListing: seq<string>, imageListing: seq<string>): Result<seq<LabelJob>>
  {
    PairJobs(MatchedPairs(NiftiPaths(inputLabels, labelListing), NiftiPaths(inputImages, imageListing)),
             outputDir, methodName)
  }

  /** The loop body of `main` over the matched pairs. */
  method ConformPairs(matched: seq<(string, string)>, outputDir: string, methodName: string)
    returns (r: Result<seq<LabelJob>>)
    ensures r == PairJobs(matched, outputDir, methodName)
  {
    var jobs: seq<LabelJob> := [];
    var k := 0;
    while k < |matched|
      invariant 0 <= k <= |matched|
      invariant k == 0 ==> jobs == []
      invariant k > 0 ==> ResamplingMethod(methodName).Ok?
                          && jobs == LabelJobs(matched[..k], outputDir, ResamplingMethod(methodName).value)
    {
      var (labelPath, imagePath) := matched[k];
      var subjectId := SubjectId(labelPath);
      var outputPath := Join(outputDir, subjectId + ".nii.gz");
      var resampling;
      if methodName == "nn" {
        resampling := NearestNeighbour;
      } else if methodName == "onehot_lin" {
        resampling := OneHotLinear;
      } else {
        return Err(ValueError("Invalid method. Choose 'nn' or 'onehot_lin'."));
      }
      assert matched[..k + 1][..k] == matched[..k];
      jobs := jobs + [LabelJob(labelPath, imagePath, outputPath, resampling)];
      k := k + 1;
    }
    assert matched[..k] == matched;
    return Ok(jobs);
  }

  /** `main` on two directory listings. */
  method ConformLabelJobs(inputLabels: string, inputImages: string, outputDir: string, methodName: string,
                          labelListing: seq<string>, imageListing: seq<string>)
    returns (r: Result<seq<LabelJob>>)
    ensures r == ConformLabelsPlan(inputLabels, inputImages, outputDir, methodName, labelListing, imageListing)
  {
    var labelFiles := NiftiPaths(inputLabels, labelListing);
    var imageFiles := NiftiPaths(inputImages, imageListing);
    var matched := MatchSubjectIds(labelFiles, imageFiles);
    r := ConformPairs(matched, outputDir, methodName);
  }
}
