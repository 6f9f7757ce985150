/** Adding an extra-cerebral label to a label map
    (data_utils/add_extra_cerebral_label.py): background voxels under a brain
    mask receive a new label, and the small rules around it pick the files,
    the output name, the interpolation order and the mask morphology. */
module ExtraLabel {
  import opened Wrappers
  import opened PyStr
  import opened Paths

  /** The label of one voxel after augmentation. */
  function AddedLabel(lab: int, m: int, extra: int): int {
    if m > 0 && lab == 0 then extra else lab
  }

  /** The augmented label grid: a voxel becomes `extra` exactly where the mask
      is positive and the label is 0 (background); every other voxel keeps
      its label, so a non-zero label is never overwritten. */
  function AddExtra(labels: seq<int>, mask: seq<int>, extra: int): (r: seq<int>)
    requires |labels| == |mask|
    ensures |r| == |labels|
    ensures forall v :: 0 <= v < |r| && mask[v] > 0 && labels[v] == 0 ==> r[v] == extra
    ensures forall v :: 0 <= v < |r| && (mask[v] <= 0 || labels[v] != 0) ==> r[v] == labels[v]
  {
    if labels == [] then []
    else
      var n := |labels| - 1;
      AddExtra(labels[..n], mask[..n], extra) + [AddedLabel(labels[n], mask[n], extra)]
  }

  /** Adding the label a second time, with the same mask and value, changes
      nothing. */
  lemma {:induction false} AddExtraIdempotent(labels: seq<int>, mask: seq<int>, extra: int)
    requires |labels| == |mask|
    ensures AddExtra(AddExtra(labels, mask, extra), mask, extra) == AddExtra(labels, mask, extra)
  {
    if labels != [] {
      var n := |labels| - 1;
      var once := AddExtra(labels, mask, extra);
      assert once[..n] == AddExtra(labels[..n], mask[..n], extra);
      AddExtraIdempotent(labels[..n], mask[..n], extra);
    }
  }

  /** Only background voxels change: the voxels that are non-zero before are
      exactly those that are unchanged and non-zero after, and a changed voxel
      was 0, is under the mask and now holds `extra`. */
  lemma AddExtraOnlyBackground(labels: seq<int>, mask: seq<int>, extra: int, v: int)
    requires |labels| == |mask| && 0 <= v < |labels|
    ensures AddExtra(labels, mask, extra)[v] != labels[v] ==>
              labels[v] == 0 && mask[v] > 0 && AddExtra(labels, mask, extra)[v] == extra
  {
  }

  /** `add_extra_label`: copy the label map, then write `extra` into the
      background voxels under the mask. The input map is not modified. */
  method AddExtraLabel(labelMap: array<int>, mask: array<int>, extra: int) returns (newLabelMap: array<int>)
    requires labelMap.Length == mask.Length
    ensures fresh(newLabelMap)
    ensures newLabelMap[..] == AddExtra(labelMap[..], mask[..], extra)
  {
    newLabelMap := new int[labelMap.Length](v reads labelMap requires 0 <= v < labelMap.Length => labelMap[v]);
    forall v | 0 <= v < labelMap.Length && mask[v] > 0 && labelMap[v] == 0 {
      newLabelMap[v] := extra;
    }
  }

  /** A word of which no proper prefix is a suffix, shown through its first
      character: it starts with a dot and has no other dot. */
  lemma DotWordUnbordered(w: string)
    requires |w| > 0 && w[0] == '.'
    requires forall i :: 1 <= i < |w| ==> w[i] != '.'
    ensures Unbordered(w)
  {
    forall k | 0 < k < |w| ensures w[..k] != w[|w| - k..] {
      assert w[|w| - k..][0] == w[|w| - k];
    }
  }

  /** A word whose last character occurs nowhere else is unbordered: every
      proper prefix ends with a different character. */
  lemma LastCharUnbordered(w: string)
    requires |w| > 0
    requires forall i :: 0 <= i < |w| - 1 ==> w[i] != w[|w| - 1]
    ensures Unbordered(w)
  {
    forall k | 0 < k < |w| ensures w[..k] != w[|w| - k..] {
      assert w[..k][k - 1] == w[k - 1];
      assert w[|w| - k..][k - 1] == w[|w| - 1];
    }
  }

  /** The three image extensions, in the order they are checked. */
  predicate ImageExtension(ext: string) {
    ext == ".mgz" || ext == ".nii.gz" || ext == ".nii"
  }

  /** Replacing an image extension a name ends with by `_masked.nii.gz`
      leaves a name ending with `_masked.nii.gz`. */
  lemma MaskedSuffix(b: string, ext: string)
    requires ImageExtension(ext) && EndsWith(b, ext)
    ensures EndsWith(Replace(b, ext, "_masked.nii.gz"), "_masked.nii.gz")
  {
    if ext == ".nii" {
      DotWordUnbordered(ext);
    } else {
      LastCharUnbordered(ext);
    }
    ReplaceKeepsSuffix(b, ext, "_masked.nii.gz");
  }

  /** `get_masked_image_filename`: the base name with `.mgz`, `.nii.gz` or
      `.nii` (checked in that order, on the ending) replaced by
      `_masked.nii.gz`; any other name ends the program. Every accepted name
      ends with `_masked.nii.gz`. */
  function GetMaskedImageFilename(inputImagePath: string): (r: Result<string>)
    ensures var b := Basename(inputImagePath);
            r.Ok? <==> EndsWith(b, ".mgz") || EndsWith(b, ".nii.gz") || EndsWith(b, ".nii")
    ensures r.Ok? ==> EndsWith(r.value, "_masked.nii.gz")
    ensures r.Err? ==> r.error == Exit("Wrong image file extension.")
  {
    var b := Basename(inputImagePath);
    var ext := if EndsWith(b, ".mgz") then ".mgz"
               else if EndsWith(b, ".nii.gz") then ".nii.gz"
               else if EndsWith(b, ".nii") then ".nii"
               else [];
    if ext == [] then Err(Exit("Wrong image file extension."))
    else
      MaskedSuffix(b, ext);
      Ok(Replace(b, ext, "_masked.nii.gz"))
  }

  /** `replace` of a dot-led extension on a plain stem rewrites only the
      extension. */
  lemma ReplaceStemExtension(stem: string, ext: string, rep: string)
    requires '.' !in stem && |ext| > 0 && ext[0] == '.'
    ensures Replace(stem + ext, ext, rep) == stem + rep
  {
    forall i | 0 <= i < |stem| ensures !OccursAt(stem + ext, ext, i) {
      assert (stem + ext)[i] == stem[i];
    }
    ReplaceOnlySuffix(stem, ext, rep);
  }

  /** Which extension the tests pick for a name ending in each of them. */
  lemma ExtensionTests(name: string, ext: string)
    requires ImageExtension(ext) && EndsWith(name, ext)
    ensures ext == ".nii.gz" ==> !EndsWith(name, ".mgz")
    ensures ext == ".nii" ==> !EndsWith(name, ".mgz") && !EndsWith(name, ".nii.gz")
  {
    if ext == ".nii" {
      assert name[|name| - 1] == 'i';
    } else if ext == ".nii.gz" {
      assert name[|name| - 3] == '.';
    }
  }

  /** For a plain stem (no dot, no slash) in any directory, each of the three
      extensions is replaced by `_masked.nii.gz` and the stem is kept. */
  lemma MaskedNameOfStem(dir: string, stem: string, ext: string)
    requires '.' !in stem && '/' !in stem
    requires ImageExtension(ext)
    ensures GetMaskedImageFilename(Join(dir, stem + ext)) == Ok(stem + "_masked.nii.gz")
  {
    var name := stem + ext;
    assert '/' !in name by {
      assert forall i :: 0 <= i < |ext| ==> name[|stem| + i] == ext[i];
    }
    BasenameJoin(dir, name);
    assert EndsWith(name, ext);
    ReplaceStemExtension(stem, ext, "_masked.nii.gz");
    ExtensionTests(name, ext);
  }

  /** The names `find_file` accepts: containing the substring and ending in
      `.nii`, `.nii.gz` or `.mgz`. */
  predicate Wanted(name: string, substring: string) {
    Contains(name, substring) && (EndsWith(name, ".nii") || EndsWith(name, ".nii.gz") || EndsWith(name, ".mgz"))
  }

  /** `find_file`: the first listed name that is wanted, joined to the
      directory, or None when no name is. */
  method FindFile(directory: string, listing: seq<string>, substring: string) returns (r: Option<string>)
    ensures r.None? <==> forall i :: 0 <= i < |listing| ==> !Wanted(listing[i], substring)
    ensures r.Some? ==> exists i :: 0 <= i < |listing| && Wanted(listing[i], substring)
                          && r.value == Join(directory, listing[i])
                          && forall j :: 0 <= j < i ==> !Wanted(listing[j], substring)
  {
    var i := 0;
    while i < |listing|
      invariant 0 <= i <= |listing|
      invariant forall j :: 0 <= j < i ==> !Wanted(listing[j], substring)
    {
      var fileName := listing[i];
      if Contains(fileName, substring) && (EndsWith(fileName, ".nii") || EndsWith(fileName, ".nii.gz") || EndsWith(fileName, ".mgz")) {
        return Some(Join(directory, fileName));
      }
      i := i + 1;
    }
    return None;
  }

  /** `process_mask`: hole filling when `fillHoles` is set, then dilation when
      the iteration count is truthy (given and non-zero). The morphology
      itself is passed in. */
  function ProcessMask<T>(mask: T, fillHoles: bool, dilationIterations: Option<int>,
                          fill: T -> T, dilate: (T, int) -> T): (r: T)
    ensures !fillHoles && (dilationIterations.None? || dilationIterations.value == 0) ==> r == mask
    ensures dilationIterations.None? || dilationIterations.value == 0 ==>
              r == (if fillHoles then fill(mask) else mask)
    ensures dilationIterations.Some? && dilationIterations.value != 0 ==>
              r == dilate(if fillHoles then fill(mask) else mask, dilationIterations.value)
  {
    var closedMask := if fillHoles then fill(mask) else mask;
    match dilationIterations
    case Some(n) => if n != 0 then dilate(closedMask, n) else closedMask
    case None => closedMask
  }

  /** The spline order `resample_to_target` passes on, as written: `linear`
      gives 2. Any other name leaves `order` unbound. */
  function InterpolationOrder(interpolation: string): (r: Result<nat>)
    ensures r.Ok? <==> interpolation in {"cubic", "nearest", "linear"}
    ensures r.Err? ==> r.error.UnboundLocalError?
    ensures r.Ok? ==> r.value in {0, 2, 3}
  {
    if interpolation == "cubic" then Ok(3)
    else if interpolation == "nearest" then Ok(0)
    else if interpolation == "linear" then Ok(2)
    else Err(UnboundLocalError("local variable 'order' referenced before assignment"))
  }

  /** The degree of the interpolating spline each named method means. */
  function SplineDegree(interpolation: string): Option<nat> {
    if interpolation == "nearest" then Some(0)
    else if interpolation == "linear" then Some(1)
    else if interpolation == "cubic" then Some(3)
    else None
  }

  /** As written, `linear` does not give linear interpolation. */
  lemma LinearIsQuadratic()
    ensures InterpolationOrder("linear") == Ok(2)
    ensures SplineDegree("linear") == Some(1)
  {
  }

  /** The order table with `linear` giving 1. */
  function InterpolationOrderFixed(interpolation: string): (r: Result<nat>)
    ensures r.Ok? <==> interpolation in {"cubic", "nearest", "linear"}
    ensures r.Err? ==> r.error.UnboundLocalError?
    ensures r.Ok? ==> Some(r.value) == SplineDegree(interpolation)
  {
    if interpolation == "cubic" then Ok(3)
    else if interpolation == "nearest" then Ok(0)
    else if interpolation == "linear" then Ok(1)
    else Err(UnboundLocalError("local variable 'order' referenced before assignment"))
  }

  /** The fixed table agrees with the one as written on every name but
      `linear`. */
  lemma InterpolationOrderAgrees(interpolation: string)
    requires interpolation != "linear"
    ensures InterpolationOrderFixed(interpolation) == InterpolationOrder(interpolation)
  {
  }
}
