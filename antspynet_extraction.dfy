/** Automatic mode of data_utils/brain_extraction_antspynet.py: every NIfTI
    image of the input folder is brain-extracted by the network; the masked
    image keeps its name unless `rename` is set, and unless `skip_morpho` is
    set the largest component of the thresholded mask is also written as
    `mask_<name>`. */
module AntsPyNetExtraction {
  import opened Wrappers
  import opened PyStr
  import opened Paths
  import opened BrainMasks

  /** The name of the masked image: `MaskedName` with `rename`, the base name
      itself without. */
  function OutputName(inputBasename: string, rename: bool): (r: string)
    ensures !rename ==> r == inputBasename
    ensures rename ==> r == MaskedName(inputBasename)
  {
    if rename then MaskedName(inputBasename) else inputBasename
  }

  /** The job for one NIfTI file. With `skip_morpho` only the masked image is
      written, masked by the `> 0.01` threshold; otherwise the mask is the
      closed largest component and is written too. */
  function AutoJobFor(inputFolder: string, outputFolder: string, skipMorpho: bool, dilationVoxels: int, rename: bool,
                      filename: string): AutoJob
  {
    var inputPath := Join(inputFolder, filename);
    var inputBasename := Basename(inputPath);
    var outputPath := Join(outputFolder, OutputName(inputBasename, rename));
    var maskOutputPath := Join(outputFolder, "mask_" + inputBasename);
    if skipMorpho then AutoJob(inputPath, Some(outputPath), None, Threshold)
    else AutoJob(inputPath, Some(outputPath), Some(maskOutputPath), LargestComponent(dilationVoxels))
  }

  /** What a job for a plain file name does: the masked image always goes to
      the output folder under `OutputName`, and the mask `mask_<name>` is
      written, as the largest component, exactly when morphology is not
      skipped. */
  lemma AutoJobForName(inputFolder: string, outputFolder: string, skipMorpho: bool, dilationVoxels: int, rename: bool,
                       filename: string)
    requires '/' !in filename
    ensures var job := AutoJobFor(inputFolder, outputFolder, skipMorpho, dilationVoxels, rename, filename);
            && job.inputPath == Join(inputFolder, filename)
            && job.imageOut == Some(Join(outputFolder, OutputName(filename, rename)))
            && (job.maskOut.Some? <==> !skipMorpho)
            && (job.maskOut.Some? ==> job.maskOut.value == Join(outputFolder, "mask_" + filename))
            && (job.step == LargestComponent(dilationVoxels) <==> !skipMorpho)
            && (skipMorpho ==> job.step == Threshold)
  {
    BasenameJoin(inputFolder, filename);
  }

  /** The jobs of the listing, in listing order, one per `.nii`/`.nii.gz`
      file. */
  function AutoJobs(inputFolder: string, outputFolder: string, skipMorpho: bool, dilationVoxels: int, rename: bool, listing: seq<string>): (jobs: seq<AutoJob>)
    ensures |jobs| == |FilterNames(listing, IsNifti)|
  {
    if listing == [] then []
    else
      var init := AutoJobs(inputFolder, outputFolder, skipMorpho, dilationVoxels, rename, listing[..|listing| - 1]);
      var f := listing[|listing| - 1];
      if IsNifti(f) then init + [AutoJobFor(inputFolder, outputFolder, skipMorpho, dilationVoxels, rename, f)] else init
  }

  /** The k-th job is the job of the k-th NIfTI file of the listing. */
  lemma {:induction false} AutoJobsFiles(inputFolder: string, outputFolder: string, skipMorpho: bool, dilationVoxels: int, rename: bool, listing: seq<string>, k: nat)
    requires k < |FilterNames(listing, IsNifti)|
    ensures AutoJobs(inputFolder, outputFolder, skipMorpho, dilationVoxels, rename, listing)[k] == AutoJobFor(inputFolder, outputFolder, skipMorpho, dilationVoxels, rename, FilterNames(listing, IsNifti)[k])
  {
    var init := listing[..|listing| - 1];
    var f := listing[|listing| - 1];
    var files := FilterNames(listing, IsNifti);
    var filesInit := FilterNames(init, IsNifti);
    var jobs := AutoJobs(inputFolder, outputFolder, skipMorpho, dilationVoxels, rename, listing);
    var jobsInit := AutoJobs(inputFolder, outputFolder, skipMorpho, dilationVoxels, rename, init);
    if k < |filesInit| {
      AutoJobsFiles(inputFolder, outputFolder, skipMorpho, dilationVoxels, rename, init, k);
      assert files[k] == filesInit[k];
      assert jobs[k] == jobsInit[k];
    } else {
      assert IsNifti(f) && files[k] == f;
    }
  }

  /** `brain_extraction`: a given, non-empty mask folder selects mask-folder
      mode; otherwise every NIfTI file of the input folder is processed. The
      output folder defaults to the input folder. */
  method BrainExtraction(inputFolder: string, outputFolder: Option<string>, skipMorpho: bool, dilationVoxels: int,
                         maskFolder: Option<string>, rename: bool,
                         inputListing: seq<string>, maskListing: seq<string>) returns (plan: Plan)
    ensures UsesMaskFolder(maskFolder) ==>
              plan == MaskMode(MaskJobs(inputFolder, FolderOrDefault(outputFolder, inputFolder), maskFolder.value,
                                        inputListing, maskListing), dilationVoxels)
    ensures !UsesMaskFolder(maskFolder) ==>
              plan == AutoMode(AutoJobs(inputFolder, FolderOrDefault(outputFolder, inputFolder), skipMorpho, dilationVoxels, rename,
                                        inputListing))
  {
    var out := FolderOrDefault(outputFolder, inputFolder);
    if maskFolder.Some? && maskFolder.value != [] {
      var jobs := PairMasks(inputFolder, out, maskFolder.value, inputListing, maskListing);
      return MaskMode(jobs, dilationVoxels);
    }
    var jobs: seq<AutoJob> := [];
    var i := 0;
    while i < |inputListing|
      invariant 0 <= i <= |inputListing|
      invariant jobs == AutoJobs(inputFolder, out, skipMorpho, dilationVoxels, rename, inputListing[..i])
    {
      var filename := inputListing[i];
      assert inputListing[..i + 1][..i] == inputListing[..i];
      if EndsWith(filename, ".nii") || EndsWith(filename, ".nii.gz") {
        var inputPath := Join(inputFolder, filename);
        var inputBasename := Basename(inputPath);
        var newOutputName := if rename then MaskedName(inputBasename) else inputBasename;
        var outputPath := Join(out, newOutputName);
        var maskOutputPath := Join(out, "mask_" + inputBasename);
        if skipMorpho {
          jobs := jobs + [AutoJob(inputPath, Some(outputPath), None, Threshold)];
        } else {
          jobs := jobs + [AutoJob(inputPath, Some(outputPath), Some(maskOutputPath), LargestComponent(dilationVoxels))];
        }
      }
      i := i + 1;
    }
    assert inputListing[..i] == inputListing;
    return AutoMode(jobs);
  }
}
