/** The conversion plan of data-utils/conform-images.py: the same sorted,
    position-named plan as data-utils/conform_images.py, but only files
    ending in `.nii.gz` are converted, each by a separate `conform.py`
    command whose arguments are built here. Running the command is left to
    the caller. */
module ConformImagesScript {
  import opened Wrappers
  import opened PyStr
  import opened Numbers
  import opened Paths
  import opened Sorting
  import opened ConformImages

  /** The command line that conforms one file. */
  function Command(inputPath: string, outputPath: string, order: int, dtype: string, segInput: bool): seq<string> {
    ["python", "./FastSurferCNN/data_loader/conform.py",
     "-i", inputPath,
     "-o", outputPath,
     "--conform_min",
     "--verbose",
     "--order", FormatInt(order),
     "--dtype", dtype]
    + (if segInput then ["--seg_input"] else [])
  }

  /** Each value follows its flag: the paths and the data type are passed
      verbatim, the order reads back as the same integer, and `--seg_input`
      is appended, as a thirteenth argument, exactly for a label map. */
  lemma CommandArguments(inputPath: string, outputPath: string, order: int, dtype: string, segInput: bool)
    ensures var c := Command(inputPath, outputPath, order, dtype, segInput);
            && |c| == (if segInput then 13 else 12)
            && c[2] == "-i" && c[3] == inputPath
            && c[4] == "-o" && c[5] == outputPath
            && c[8] == "--order" && ParseInt(c[9]) == Some(order)
            && c[10] == "--dtype" && c[11] == dtype
            && (segInput ==> c[12] == "--seg_input")
  {
    ParseFormat(order);
  }

  /** The commands for the planned conversions, one each, in order. */
  function Commands(conversions: seq<(string, string)>, order: int, dtype: string, segInput: bool): (cs: seq<seq<string>>)
    ensures |cs| == |conversions|
  {
    if conversions == [] then []
    else
      var n := |conversions| - 1;
      Commands(conversions[..n], order, dtype, segInput) + [Command(conversions[n].0, conversions[n].1, order, dtype, segInput)]
  }

  /** One more conversion adds its command. */
  lemma CommandsSnoc(conversions: seq<(string, string)>, c: (string, string), order: int, dtype: string, segInput: bool)
    ensures Commands(conversions + [c], order, dtype, segInput)
              == Commands(conversions, order, dtype, segInput) + [Command(c.0, c.1, order, dtype, segInput)]
  {
    assert (conversions + [c])[..|conversions|] == conversions;
  }

  /** The k-th command converts the k-th planned file. */
  lemma {:induction false} CommandsAt(conversions: seq<(string, string)>, order: int, dtype: string, segInput: bool, k: nat)
    requires k < |conversions|
    ensures Commands(conversions, order, dtype, segInput)[k] == Command(conversions[k].0, conversions[k].1, order, dtype, segInput)
  {
    var n := |conversions| - 1;
    if k < n {
      CommandsAt(conversions[..n], order, dtype, segInput, k);
      assert conversions[..n][k] == conversions[k];
    }
  }

  /** The loop of `conform_images` over the sorted listing, for the files
      ending in `.nii.gz`: the plan, and the command run for each file. */
  method ConformImagesPlan(inputDir: string, outputDir: Option<string>, rename: bool, order: int, dtype: string,
                           segInput: bool, listing: seq<string>)
    returns (conversions: seq<(string, string)>, renameMapping: seq<(string, string)>, commands: seq<seq<string>>)
    ensures Plan(conversions, renameMapping) == ConformPlan(inputDir, OutputDir(inputDir, outputDir), rename, IsNiiGz, Sort(listing))
    ensures commands == Commands(conversions, order, dtype, segInput)
  {
    var output := OutputDir(inputDir, outputDir);
    var names := Sort(listing);
    conversions, renameMapping, commands := [], [], [];
    var idx := 0;
    while idx < |names|
      invariant 0 <= idx <= |names|
      invariant Plan(conversions, renameMapping) == ConformPlan(inputDir, output, rename, IsNiiGz, names[..idx])
      invariant commands == Commands(conversions, order, dtype, segInput)
    {
      var filename := names[idx];
      ConformPlanSnoc(inputDir, output, rename, IsNiiGz, names, idx);
      if EndsWith(filename, ".nii.gz") {
        var inputPath := Join(inputDir, filename);
        var outputPath;
        if rename {
          var newFilename := NewFilename(idx);
          outputPath := Join(output, newFilename);
          renameMapping := renameMapping + [(filename, newFilename)];
        } else {
          outputPath := Join(output, filename);
        }
        CommandsSnoc(conversions, (inputPath, outputPath), order, dtype, segInput);
        commands := commands + [Command(inputPath, outputPath, order, dtype, segInput)];
        conversions := conversions + [(inputPath, outputPath)];
      }
      idx := idx + 1;
    }
    assert names[..idx] == names;
  }
}
