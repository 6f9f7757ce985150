/** Automatic mode of data-utils/brain-extraction.py: every NIfTI image of
    the input folder is brain-extracted by the network. The masked image is
    always renamed (`MaskedName`); with `skip_morpho` only the network's raw
    mask is written, as `mask_<name>`, and no masked image at all. */
module BrainExtractionScript {
  import opened Wrappers
  import opened PyStr
  import opened Paths
  import opened BrainMasks

  /** The job for one NIfTI file. */
  function AutoJobFor(inputFolder: string, outputFolder: string, skipMorpho: bool, dilationVoxels: int, filename: string): AutoJob
  {
    var inputPath := Join(inputFolder, filename);
    var inputBasename := Basename(inputPath);
    var outputPath := Join(outputFolder, MaskedName(inputBasename));
    var maskOutputPath := Join(outputFolder, "mask_" + inputBasename);
    if skipMorpho then AutoJob(inputPath, None, Some(maskOutputPath), Raw)
    else AutoJob(inputPath, Some(outputPath), Some(maskOutputPath), LargestComponent(dilationVoxels))
  }

  /** What a job for a plain file name does: the mask `mask_<name>` is always
      written, the raw network mask with `skip_morpho` and the largest
      component otherwise; the masked image, always under `MaskedName`, is
      written exactly when morphology is not skipped. */
  lemma AutoJobForName(inputFolder: string, outputFolder: string, skipMorpho: bool, dilationVoxels: int, filename: string)
    requires '/' !in filename
    ensures var job := AutoJobFor(inputFolder, outputFolder, skipMorpho, dilationVoxels, filename);
            && job.inputPath == Join(inputFolder, filename)
            && job.maskOut == Some(Join(outputFolder, "mask_" + filename))
            && (job.imageOut.Some? <==> !skipMorpho)
            && (job.imageOut.Some? ==> job.imageOut.value == Join(outputFolder, MaskedName(filename)))
            && (skipMorpho ==> job.step == Raw)
            && (!skipMorpho ==> job.step == LargestComponent(dilationVoxels))
  {
    BasenameJoin(inputFolder, filename);
  }

  /** The jobs of the listing, in listing order, one per `.nii`/`.nii.gz`
      file. */
  function AutoJobs(inputFolder: string, outputFolder: string, skipMorpho: bool, dilationVoxels: int, listing: seq<string>): (jobs: seq<AutoJob>)
    ensures |jobs| == |FilterNames(listing, IsNifti)|
  {
    if listing == [] then []
    else
      var init := AutoJobs(inputFolder, outputFolder, skipMorpho, dilationVoxels, listing[..|listing| - 1]);
      var f := listing[|listing| - 1];
      if IsNifti(f) then init + [AutoJobFor(inputFolder, outputFolder, skipMorpho, dilationVoxels, f)] else init
  }

  /** The k-th job is the job of the k-th NIfTI file of the listing. */
  lemma {:induction false} AutoJobsFiles(inputFolder: string, outputFolder: string, skipMorpho: bool, dilationVoxels: int, listing: seq<string>, k: nat)
    requires k < |FilterNames(listing, IsNifti)|
    ensures AutoJobs(inputFolder, outputFolder, skipMorpho, dilationVoxels, listing)[k] == AutoJobFor(inputFolder, outputFolder, skipMorpho, dilationVoxels, FilterNames(listing, IsNifti)[k])
  {
    var init := listing[..|listing| - 1];
    var f := listing[|listing| - 1];
    var files := FilterNames(listing, IsNifti);
    var filesInit := FilterNames(init, IsNifti);
    var jobs := AutoJobs(inputFolder, outputFolder, skipMorpho, dilationVoxels, listing);
    var jobsInit := AutoJobs(inputFolder, outputFolder, skipMorpho, dilationVoxels, init);
    if k < |filesInit| {
      AutoJobsFiles(inputFolder, outputFolder, skipMorpho, dilationVoxels, init, k);
      assert files[k] == filesInit[k];
      assert jobs[k] == jobsInit[k];
    } else {
      assert IsNifti(f) && files[k] == f;
    }
  }

  /** `brain_extraction`: a given, non-empty mask folder selects mask-folder
      mode; otherwise every NIfTI file of the input folder is processed. The
      output folder defaults to the input folder. */
  method BrainExtraction(inputFolder: string, outputFolder: Option<string>, skipMorpho: bool, dilationVoxels: int,
                         maskFolder: Option<string>, inputListing: seq<string>, maskListing: seq<string>)
    returns (plan: Plan)
    ensures UsesMaskFolder(maskFolder) ==>
              plan == MaskMode(MaskJobs(inputFolder, FolderOrDefault(outputFolder, inputFolder), maskFolder.value,
                                        inputListing, maskListing), dilationVoxels)
    ensures !UsesMaskFolder(maskFolder) ==>
              plan == AutoMode(AutoJobs(inputFolder, FolderOrDefault(outputFolder, inputFolder), skipMorpho, dilationVoxels, inputListing))
  {
    var out := FolderOrDefault(outputFolder, inputFolder);
    if maskFolder.Some? && maskFolder.value != [] {
      var jobs := PairMasks(inputFolder, out, maskFolder.value, inputListing, maskListing);
      return MaskMode(jobs, dilationVoxels);
    }
    var jobs: seq<AutoJob> := [];
    var i := 0;
    while i < |inputListing|
      invariant 0 <= i <= |inputListing|
      invariant jobs == AutoJobs(inputFolder, out, skipMorpho, dilationVoxels, inputListing[..i])
    {
      var filename := inputListing[i];
      assert inputListing[..i + 1][..i] == inputListing[..i];
      if EndsWith(filename, ".nii") || EndsWith(filename, ".nii.gz") {
        var inputPath := Join(inputFolder, filename);
        var inputBasename := Basename(inputPath);
        var outputPath := Join(out, MaskedName(inputBasename));
        var maskOutputPath := Join(out, "mask_" + inputBasename);
        if skipMorpho {
          jobs := jobs + [AutoJob(inputPath, None, Some(maskOutputPath), Raw)];
        } else {
          jobs := jobs + [AutoJob(inputPath, Some(outputPath), Some(maskOutputPath), LargestComponent(dilationVoxels))];
        }
      }
      i := i + 1;
    }
    assert inputListing[..i] == inputListing;
    return AutoMode(jobs);
  }
}
