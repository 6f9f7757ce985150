/** The conversion plan of data-utils/conform_images.py: the input folder's
    listing is sorted, every NIfTI file in it is conformed into the output
    folder, under its own name or, when renaming, under the nnU-Net name of
    its position in the sorted listing, and the renames are recorded. The
    conforming itself is a library call and the listing an input. */
module ConformImages {
  import opened Wrappers
  import opened PyStr
  import opened Paths
  import opened Sorting
  import opened NnUnetNames

  /** `conform_images`: a given, non-empty output folder is used as is;
      otherwise the output goes to `inputs-cfm` beside the input folder. */
  function OutputDir(inputDir: string, outputDir: Option<string>): (d: string)
    ensures outputDir.Some? && outputDir.value != [] ==> d == outputDir.value
    ensures outputDir.None? || outputDir.value == [] ==> d == Join(Dirname(inputDir), "inputs-cfm")
  {
    FolderIfGiven(outputDir, Join(Dirname(inputDir), "inputs-cfm"))
  }

  /** `f"image_{idx:04d}_0000.nii.gz"`. */
  function NewFilename(idx: nat): string {
    CaseId(idx, false) + ".nii.gz"
  }

  /** What the loop produces: the (input path, output path) pairs handed to
      the conforming step and the (old name, new name) rows of the rename
      table, in order. */
  datatype Plan = Plan(conversions: seq<(string, string)>, renameMapping: seq<(string, string)>)

  /** The plan for the sorted names, keeping those `keep` accepts; the file at
      position `idx` of the sorted names is renamed after `idx`, so skipped
      files still use up their positions. */
  function ConformPlan(inputDir: string, outputDir: string, rename: bool, keep: string -> bool, names: seq<string>): (p: Plan)
    ensures |p.conversions| == |FilterNames(names, keep)|
    ensures |p.renameMapping| == if rename then |p.conversions| else 0
  {
    if names == [] then Plan([], [])
    else
      var idx := |names| - 1;
      var q := ConformPlan(inputDir, outputDir, rename, keep, names[..idx]);
      var filename := names[idx];
      if !keep(filename) then q
      else if rename then
        Plan(q.conversions + [(Join(inputDir, filename), Join(outputDir, NewFilename(idx)))],
             q.renameMapping + [(filename, NewFilename(idx))])
      else
        Plan(q.conversions + [(Join(inputDir, filename), Join(outputDir, filename))], q.renameMapping)
  }

  /** One more name extends the plan of the names before it. */
  lemma ConformPlanSnoc(inputDir: string, outputDir: string, rename: bool, keep: string -> bool, names: seq<string>, idx: nat)
    requires idx < |names|
    ensures var q := ConformPlan(inputDir, outputDir, rename, keep, names[..idx]);
            var filename := names[idx];
            ConformPlan(inputDir, outputDir, rename, keep, names[..idx + 1])
              == if !keep(filename) then q
                 else if rename then
                   Plan(q.conversions + [(Join(inputDir, filename), Join(outputDir, NewFilename(idx)))],
                        q.renameMapping + [(filename, NewFilename(idx))])
                 else
                   Plan(q.conversions + [(Join(inputDir, filename), Join(outputDir, filename))], q.renameMapping)
  {
    assert names[..idx + 1][..idx] == names[..idx];
  }

  /** The k-th conversion is that of the k-th kept name: it reads the file,
      and writes it under its own name, or under the new name of the k-th
      rename row, whose old name is the file's name. */
  lemma {:induction false} ConformPlanAt(inputDir: string, outputDir: string, rename: bool, keep: string -> bool,
                                         names: seq<string>, k: nat)
    requires k < |FilterNames(names, keep)|
    ensures ConformPlan(inputDir, outputDir, rename, keep, names).conversions[k].0
              == Join(inputDir, FilterNames(names, keep)[k])
    ensures !rename ==> ConformPlan(inputDir, outputDir, rename, keep, names).conversions[k].1
                          == Join(outputDir, FilterNames(names, keep)[k])
    ensures rename ==> && ConformPlan(inputDir, outputDir, rename, keep, names).renameMapping[k].0
                            == FilterNames(names, keep)[k]
                       && ConformPlan(inputDir, outputDir, rename, keep, names).conversions[k].1
                            == Join(outputDir, ConformPlan(inputDir, outputDir, rename, keep, names).renameMapping[k].1)
  {
    var idx := |names| - 1;
    var files := FilterNames(names, keep);
    var filesInit := FilterNames(names[..idx], keep);
    var p := ConformPlan(inputDir, outputDir, rename, keep, names);
    var q := ConformPlan(inputDir, outputDir, rename, keep, names[..idx]);
    if k < |filesInit| {
      ConformPlanAt(inputDir, outputDir, rename, keep, names[..idx], k);
      assert files[k] == filesInit[k];
      assert p.conversions[k] == q.conversions[k];
      if rename {
        assert p.renameMapping[k] == q.renameMapping[k];
      }
    } else {
      assert keep(names[idx]) && files[k] == names[idx];
      assert k == |q.conversions|;
      assert rename ==> k == |q.renameMapping|;
    }
  }

  /** `name` is the new name of one of the first `n` positions. */
  predicate NamedBefore(name: string, n: nat) {
    exists i :: 0 <= i < n && name == NewFilename(i)
  }

  /** The new name of position `n` is not that of an earlier position. */
  lemma NotNamedBefore(name: string, n: nat)
    requires NamedBefore(name, n)
    ensures name != NewFilename(n)
  {
    var i :| 0 <= i < n && name == NewFilename(i);
    CaseFileInjective(i, n, false, ".nii.gz");
  }

  /** Every new name is the name of a position of the sorted listing. */
  lemma {:induction false} NewNamesNamed(inputDir: string, outputDir: string, rename: bool, keep: string -> bool, names: seq<string>)
    ensures forall j :: 0 <= j < |ConformPlan(inputDir, outputDir, rename, keep, names).renameMapping| ==>
              NamedBefore(ConformPlan(inputDir, outputDir, rename, keep, names).renameMapping[j].1, |names|)
  {
    if names != [] {
      var idx := |names| - 1;
      var p := ConformPlan(inputDir, outputDir, rename, keep, names);
      var q := ConformPlan(inputDir, outputDir, rename, keep, names[..idx]);
      NewNamesNamed(inputDir, outputDir, rename, keep, names[..idx]);
      assert |names[..idx]| == idx;
      forall j | 0 <= j < |p.renameMapping| ensures NamedBefore(p.renameMapping[j].1, |names|) {
        if j < |q.renameMapping| {
          assert p.renameMapping[j] == q.renameMapping[j];
          var i :| 0 <= i < idx && q.renameMapping[j].1 == NewFilename(i);
          assert 0 <= i < |names| && p.renameMapping[j].1 == NewFilename(i);
        } else {
          assert 0 <= idx < |names| && p.renameMapping[j].1 == NewFilename(idx);
        }
      }
    }
  }

  /** The new names are pairwise different, so no two files are conformed
      onto the same output. */
  lemma {:induction false} NewNamesDistinct(inputDir: string, outputDir: string, rename: bool, keep: string -> bool, names: seq<string>)
    ensures forall a, b :: 0 <= a < b < |ConformPlan(inputDir, outputDir, rename, keep, names).renameMapping| ==>
              ConformPlan(inputDir, outputDir, rename, keep, names).renameMapping[a].1
                != ConformPlan(inputDir, outputDir, rename, keep, names).renameMapping[b].1
  {
    if names != [] {
      var idx := |names| - 1;
      var p := ConformPlan(inputDir, outputDir, rename, keep, names);
      var q := ConformPlan(inputDir, outputDir, rename, keep, names[..idx]);
      NewNamesDistinct(inputDir, outputDir, rename, keep, names[..idx]);
      NewNamesNamed(inputDir, outputDir, rename, keep, names[..idx]);
      assert |names[..idx]| == idx;
      if p.renameMapping != q.renameMapping {
        assert p.renameMapping[|q.renameMapping|].1 == NewFilename(idx);
        forall j | 0 <= j < |q.renameMapping| ensures p.renameMapping[j] == q.renameMapping[j] && p.renameMapping[j].1 != NewFilename(idx) {
          NotNamedBefore(q.renameMapping[j].1, idx);
        }
      }
    }
  }

  /** Keeping some names of a sorted listing leaves them sorted. */
  lemma {:induction false} FilterSorted(names: seq<string>, keep: string -> bool)
    requires Sorted(names)
    ensures Sorted(FilterNames(names, keep))
  {
    if names != [] {
      var idx := |names| - 1;
      var init := names[..idx];
      assert Sorted(init);
      FilterSorted(init, keep);
      var f := FilterNames(init, keep);
      forall y | y in f ensures StrLe(y, names[idx]) {
        var i :| 0 <= i < |init| && init[i] == y;
        assert names[i] == y;
      }
    }
  }

  /** The loop of `conform_images` over the sorted listing, for the files
      ending in `.nii` or `.nii.gz`. */
  method ConformImagesPlan(inputDir: string, outputDir: Option<string>, rename: bool, listing: seq<string>)
    returns (conversions: seq<(string, string)>, renameMapping: seq<(string, string)>)
    ensures Plan(conversions, renameMapping) == ConformPlan(inputDir, OutputDir(inputDir, outputDir), rename, IsNifti, Sort(listing))
  {
    var output := OutputDir(inputDir, outputDir);
    var names := Sort(listing);
    conversions, renameMapping := [], [];
    var idx := 0;
    while idx < |names|
      invariant 0 <= idx <= |names|
      invariant Plan(conversions, renameMapping) == ConformPlan(inputDir, output, rename, IsNifti, names[..idx])
    {
      var filename := names[idx];
      ConformPlanSnoc(inputDir, output, rename, IsNifti, names, idx);
      if EndsWith(filename, ".nii") || EndsWith(filename, ".nii.gz") {
        var inputPath := Join(inputDir, filename);
        var outputPath;
        if rename {
          var newFilename := NewFilename(idx);
          outputPath := Join(output, newFilename);
          renameMapping := renameMapping + [(filename, newFilename)];
        } else {
          outputPath := Join(output, filename);
        }
        conversions := conversions + [(inputPath, outputPath)];
      }
      idx := idx + 1;
    }
    assert names[..idx] == names;
  }
}
