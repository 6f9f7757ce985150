/** What the two brain-extraction scripts (data_utils/brain_extraction_antspynet.py
    and data-utils/brain-extraction.py) plan to read and write, and the
    mask-folder mode they share line for line: each NIfTI mask is paired with
    the first input image whose name contains the mask's name with every
    `mask` removed. */
module BrainMasks {
  import opened Wrappers
  import opened PyStr
  import opened Paths

  /** The mask a job multiplies the image with, or writes: the network's
      output as is, its `> 0.01` threshold, or `Components.ComponentMask` of
      that threshold's labelling with the given dilation voxel count. */
  datatype MaskStep = Raw | Threshold | LargestComponent(dilationVoxels: int)

  /** One image processed in automatic mode: the input path, where the
      masked image is written (if it is), where the mask is written (if it
      is) and which mask that is. */
  datatype AutoJob = AutoJob(inputPath: string, imageOut: Option<string>, maskOut: Option<string>, step: MaskStep)

  /** One mask-folder pair: the image and mask read, and the masked image and
      modified mask written. */
  datatype MaskJob = MaskJob(inputPath: string, maskPath: string, imageOut: string, maskOut: string)

  /** A run processes either the mask folder or the input folder. In
      mask-folder mode every mask is replaced by `Components.ComponentMask`
      of its `> 0.01` threshold's labelling, with the run's dilation voxel
      count. */
  datatype Plan = MaskMode(maskJobs: seq<MaskJob>, dilationVoxels: int) | AutoMode(autoJobs: seq<AutoJob>)

  /** `if mask_folder:`: a folder that is given and not empty. */
  predicate UsesMaskFolder(maskFolder: Option<string>) {
    maskFolder.Some? && maskFolder.value != []
  }

  /** `mask_filename.replace('mask', '')`. */
  function SubjectKey(maskFilename: string): string {
    Replace(maskFilename, "mask", "")
  }

  /** `next((f for f in names if key in f), None)`: the first name containing
      `key`. */
  function FirstContaining(names: seq<string>, key: string): (r: Option<string>)
    ensures r.None? <==> forall i :: 0 <= i < |names| ==> !Contains(names[i], key)
    ensures r.Some? ==> exists i :: 0 <= i < |names| && names[i] == r.value && Contains(names[i], key)
                          && forall j :: 0 <= j < i ==> !Contains(names[j], key)
  {
    if names == [] then None
    else if Contains(names[0], key) then Some(names[0])
    else
      var r := FirstContaining(names[1..], key);
      assert forall j :: 1 <= j < |names| ==> names[1..][j - 1] == names[j];
      r
  }

  /** The output names of a pair: an input containing `.nii.gz` gives the
      input with two extensions stripped plus `_masked.nii.gz` and the mask
      with two stripped plus `_mod.nii.gz`; otherwise one extension is
      stripped from each and `_masked.nii` / `_mod.nii` appended. The suffix
      of the mask name follows the INPUT's name. */
  function PairNames(inputFilename: string, maskFilename: string): (r: (string, string))
    ensures Contains(inputFilename, ".nii.gz") ==>
              EndsWith(r.0, "_masked.nii.gz") && EndsWith(r.1, "_mod.nii.gz")
    ensures !Contains(inputFilename, ".nii.gz") ==>
              EndsWith(r.0, "_masked.nii") && EndsWith(r.1, "_mod.nii")
  {
    if Contains(inputFilename, ".nii.gz") then
      (StripTwoExtensions(inputFilename) + "_masked.nii.gz", StripTwoExtensions(maskFilename) + "_mod.nii.gz")
    else
      (Splitext(inputFilename).0 + "_masked.nii", Splitext(maskFilename).0 + "_mod.nii")
  }

  /** The job for one NIfTI mask: none when no input name contains its key,
      or when the first one that does is empty (`if input_filename:`). */
  function MaskJobFor(inputFolder: string, outputFolder: string, maskFolder: string,
                      inputListing: seq<string>, maskFilename: string): Option<MaskJob>
  {
    match FirstContaining(inputListing, SubjectKey(maskFilename))
    case None => None
    case Some(f) =>
      if f == [] then None
      else
        var names := PairNames(f, maskFilename);
        Some(MaskJob(Join(inputFolder, f), Join(maskFolder, maskFilename),
                     Join(outputFolder, names.0), Join(outputFolder, names.1)))
  }

  /** A mask's job reads the FIRST listed input whose name contains the mask
      name with `mask` removed, provided that name is not empty; no job
      means no input contains the key, or the first that does is empty. */
  lemma MaskJobPairsFirstMatch(inputFolder: string, outputFolder: string, maskFolder: string,
                               inputListing: seq<string>, maskFilename: string)
    ensures var key := SubjectKey(maskFilename);
            match MaskJobFor(inputFolder, outputFolder, maskFolder, inputListing, maskFilename)
            case Some(job) =>
              exists i :: 0 <= i < |inputListing| && inputListing[i] != [] && Contains(inputListing[i], key)
                          && (forall j :: 0 <= j < i ==> !Contains(inputListing[j], key))
                          && job.inputPath == Join(inputFolder, inputListing[i])
                          && job.maskPath == Join(maskFolder, maskFilename)
            case None =>
              (forall i :: 0 <= i < |inputListing| ==> !Contains(inputListing[i], key))
              || FirstContaining(inputListing, key) == Some([])
  {
  }

  /** The jobs of the mask listing, in listing order: one per `.nii`/`.nii.gz`
      mask that finds an input image. */
  function MaskJobs(inputFolder: string, outputFolder: string, maskFolder: string,
                    inputListing: seq<string>, maskListing: seq<string>): seq<MaskJob>
  {
    if maskListing == [] then []
    else
      var init := MaskJobs(inputFolder, outputFolder, maskFolder, inputListing, maskListing[..|maskListing| - 1]);
      var m := maskListing[|maskListing| - 1];
      if IsNifti(m) then
        match MaskJobFor(inputFolder, outputFolder, maskFolder, inputListing, m)
        case Some(job) => init + [job]
        case None => init
      else init
  }

  /** Mask name `m` is listed as NIfTI and yields `job`. */
  predicate Yields(inputFolder: string, outputFolder: string, maskFolder: string,
                   inputListing: seq<string>, m: string, job: MaskJob) {
    IsNifti(m) && MaskJobFor(inputFolder, outputFolder, maskFolder, inputListing, m) == Some(job)
  }

  /** A job is planned exactly when some NIfTI mask of the listing yields it:
      masks with other extensions and masks without a matching image are
      skipped. */
  lemma {:induction false} MaskJobsMembers(inputFolder: string, outputFolder: string, maskFolder: string,
                                           inputListing: seq<string>, maskListing: seq<string>, job: MaskJob)
    ensures job in MaskJobs(inputFolder, outputFolder, maskFolder, inputListing, maskListing) <==>
              exists i :: 0 <= i < |maskListing| && Yields(inputFolder, outputFolder, maskFolder, inputListing, maskListing[i], job)
  {
    if maskListing != [] {
      var init := maskListing[..|maskListing| - 1];
      var m := maskListing[|maskListing| - 1];
      MaskJobsMembers(inputFolder, outputFolder, maskFolder, inputListing, init, job);
      var before := MaskJobs(inputFolder, outputFolder, maskFolder, inputListing, init);
      var all := MaskJobs(inputFolder, outputFolder, maskFolder, inputListing, maskListing);
      assert forall i :: 0 <= i < |init| ==> init[i] == maskListing[i];
      if Yields(inputFolder, outputFolder, maskFolder, inputListing, m, job) {
        assert all == before + [job];
      } else {
        assert job in all <==> job in before;
        forall i | 0 <= i < |maskListing| && Yields(inputFolder, outputFolder, maskFolder, inputListing, maskListing[i], job)
          ensures i < |init|
        {
          if i == |init| {
            assert false;
          }
        }
      }
    }
  }

  /** The mask-folder loop: for each listed mask with a NIfTI ending, look up
      its image and, when there is one, plan the pair. */
  method PairMasks(inputFolder: string, outputFolder: string, maskFolder: string,
                   inputListing: seq<string>, maskListing: seq<string>) returns (jobs: seq<MaskJob>)
    ensures jobs == MaskJobs(inputFolder, outputFolder, maskFolder, inputListing, maskListing)
  {
    jobs := [];
    var i := 0;
    while i < |maskListing|
      invariant 0 <= i <= |maskListing|
      invariant jobs == MaskJobs(inputFolder, outputFolder, maskFolder, inputListing, maskListing[..i])
    {
      var maskFilename := maskListing[i];
      assert maskListing[..i + 1][..i] == maskListing[..i];
      if EndsWith(maskFilename, ".nii") || EndsWith(maskFilename, ".nii.gz") {
        var subjectId := SubjectKey(maskFilename);
        var inputFilename := FirstContaining(inputListing, subjectId);
        if inputFilename.Some? && inputFilename.value != [] {
          var names := PairNames(inputFilename.value, maskFilename);
          jobs := jobs + [MaskJob(Join(inputFolder, inputFilename.value), Join(maskFolder, maskFilename),
                                  Join(outputFolder, names.0), Join(outputFolder, names.1))];
        }
      }
      i := i + 1;
    }
    assert maskListing[..i] == maskListing;
  }

  /** A plain `.nii` mask paired with an image whose name contains `.nii.gz`
      gets a mask output ending `_mod.nii.gz`: the suffix comes from the
      image, not from the mask. */
  lemma MaskSuffixFollowsInput(inputFilename: string, stem: string)
    requires Contains(inputFilename, ".nii.gz")
    requires stem != [] && '.' !in stem && '/' !in stem
    ensures PairNames(inputFilename, stem + ".nii").1 == stem + "_mod.nii.gz"
  {
    StripTwoExtensionsNifti(stem);
  }

  /** The automatic-mode output name: two extensions stripped from the base
      name, then `_masked.nii.gz` when the name contains `.nii.gz` and
      `_masked.nii` otherwise. */
  function MaskedName(inputBasename: string): (r: string)
    ensures Contains(inputBasename, ".nii.gz") ==> EndsWith(r, "_masked.nii.gz")
    ensures !Contains(inputBasename, ".nii.gz") ==> EndsWith(r, "_masked.nii")
  {
    if Contains(inputBasename, ".nii.gz") then StripTwoExtensions(inputBasename) + "_masked.nii.gz"
    else StripTwoExtensions(inputBasename) + "_masked.nii"
  }

  /** A stem without a dot keeps its stem: `stem.nii.gz` becomes
      `stem_masked.nii.gz`. */
  lemma MaskedNameNiiGz(stem: string)
    requires stem != [] && '.' !in stem && '/' !in stem
    ensures MaskedName(stem + ".nii.gz") == stem + "_masked.nii.gz"
  {
    StripTwoExtensionsNifti(stem);
    assert OccursAt(stem + ".nii.gz", ".nii.gz", |stem|);
  }

  /** ... and `stem.nii` becomes `stem_masked.nii`. */
  lemma MaskedNameNii(stem: string)
    requires stem != [] && '.' !in stem && '/' !in stem
    ensures MaskedName(stem + ".nii") == stem + "_masked.nii"
  {
    StripTwoExtensionsNifti(stem);
    NoNiiGzInNii(stem);
  }

  /** `stem.nii` with a dotless stem does not contain `.nii.gz`. */
  lemma NoNiiGzInNii(stem: string)
    requires '.' !in stem
    ensures !Contains(stem + ".nii", ".nii.gz")
  {
    var nii := stem + ".nii";
    forall i | 0 <= i <= |nii| - 7 ensures !OccursAt(nii, ".nii.gz", i) {
      assert nii[i] == stem[i];
    }
  }

  /** For `.nii` names the second `splitext` removes one more extension:
      `stem.x.nii` loses its `.x`, so `stem.a.nii` and `stem.b.nii` are both
      written as `stem_masked.nii`. */
  lemma MaskedNameDropsInnerExtension(stem: string, x: string)
    requires stem != [] && '.' !in stem && '/' !in stem
    requires '.' !in x && '/' !in x
    requires !Contains(stem + "." + x + ".nii", ".nii.gz")
    ensures MaskedName(stem + "." + x + ".nii") == stem + "_masked.nii"
  {
    var mid := stem + "." + x;
    assert RFind(stem, '/') == -1;
    assert HasNameBefore(stem, |stem|) by { assert stem[0] != '.'; }
    assert HasNameBefore(mid, |mid|) by {
      assert '/' !in mid by {
        assert forall i :: 0 <= i < |stem| ==> mid[i] == stem[i];
        assert forall i :: |stem| < i < |mid| ==> mid[i] == x[i - |stem| - 1];
      }
      assert RFind(mid, '/') == -1;
      assert mid[0] == stem[0] != '.';
    }
    SplitextAppend(mid, ".nii");
    assert IsExtension("." + x) by {
      assert forall i :: 1 <= i < |"." + x| ==> ("." + x)[i] == x[i - 1];
    }
    assert mid == stem + ("." + x);
    SplitextAppend(stem, "." + x);
    assert mid + ".nii" == stem + "." + x + ".nii";
  }
}
