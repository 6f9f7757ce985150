/** Label reordering by POSITION (data-utils/reorder_labels_freesurfer_lut.py):
    two label files are read into lists of ids, the i-th old id is paired with
    the i-th new id, and every NIfTI label map of the input directory is
    remapped with that correspondence. */
module FssOrderLut {
  import opened Wrappers
  import opened PyStr
  import opened Numbers
  import opened Dicts
  import opened Paths
  import opened LabelRemap

  /** A line `parse_label_file` reads: at least two whitespace-separated
      tokens. There is no comment handling: a `#` header with two or more
      words is read like any other line. */
  predicate IsRead(line: string) {
    |Split(line)| >= 2
  }

  /** A read line whose first token is not an integer. */
  predicate BadLine(line: string) {
    IsRead(line) && ParseInt(Split(line)[0]).None?
  }

  /** Where `int(parts[0])` raises. */
  predicate Raises(line: string) {
    LineIds(line).Err?
  }

  /** What one line contributes: nothing when it has fewer than two tokens,
      its first token's value when that is an integer, a ValueError
      otherwise. */
  function LineIds(line: string): (r: Result<seq<int>>)
    ensures !IsRead(line) ==> r == Ok([])
    ensures IsRead(line) && !BadLine(line) ==> r == Ok([ParseInt(Split(line)[0]).value])
    ensures r.Err? <==> BadLine(line)
    ensures r.Err? ==> r.error.ValueError?
  {
    var parts := Split(line);
    if |parts| < 2 then Ok([])
    else match ParseInt(parts[0])
      case None => Err(ValueError("invalid literal for int() with base 10"))
      case Some(id) => Ok([id])
  }

  /** Two readings in file order: the first error met, or the ids of the
      first part followed by those of the second. */
  function Then(ra: Result<seq<int>>, rb: Result<seq<int>>): Result<seq<int>> {
    if ra.Err? then ra
    else if rb.Err? then rb
    else Ok(ra.value + rb.value)
  }

  /** Lines read in order by `read`: the first error met, or what each line
      contributes, concatenated. */
  function ReadAll(lines: seq<string>, read: string -> Result<seq<int>>): Result<seq<int>> {
    if lines == [] then Ok([])
    else Then(ReadAll(lines[..|lines| - 1], read), read(lines[|lines| - 1]))
  }

  /** The ids `parse_label_file` collects from the lines read so far, or the
      ValueError of the first read line whose first token is not an integer. */
  function LabelIds(lines: seq<string>): Result<seq<int>> {
    ReadAll(lines, LineIds)
  }

  /** Reading fails exactly when reading some line fails. */
  lemma {:induction false} ReadAllError(lines: seq<string>, read: string -> Result<seq<int>>)
    ensures ReadAll(lines, read).Err? <==> exists i :: 0 <= i < |lines| && read(lines[i]).Err?
  {
    if lines != [] {
      var n := |lines| - 1;
      var init := lines[..n];
      ReadAllError(init, read);
      if ReadAll(init, read).Err? {
        var i :| 0 <= i < |init| && read(init[i]).Err?;
        assert lines[i] == init[i];
      } else if !read(lines[n]).Err? {
        forall i | 0 <= i < |lines| ensures !read(lines[i]).Err? {
          if i < n {
            assert lines[i] == init[i];
          }
        }
      }
    }
  }

  /** Reading fails exactly when some read line has a first token that is not
      an integer. */
  lemma LabelIdsError(lines: seq<string>)
    ensures LabelIds(lines).Err? <==> exists i :: 0 <= i < |lines| && Raises(lines[i])
  {
    ReadAllError(lines, LineIds);
  }

  /** Reading a file in two parts gives the ids of the first part followed by
      those of the second, and the first error met, in file order. */
  lemma {:induction false} ReadAllAppend(a: seq<string>, b: seq<string>, read: string -> Result<seq<int>>)
    ensures ReadAll(a + b, read) == Then(ReadAll(a, read), ReadAll(b, read))
  {
    if b == [] {
      assert a + b == a;
      assert ReadAll(a, read).Ok? ==> ReadAll(a, read).value + [] == ReadAll(a, read).value;
    } else {
      var binit := b[..|b| - 1];
      var last := b[|b| - 1];
      assert (a + b)[..|a + b| - 1] == a + binit;
      assert (a + b)[|a + b| - 1] == last;
      ReadAllAppend(a, binit, read);
      var ra := ReadAll(a, read);
      var rb := ReadAll(binit, read);
      var rl := read(last);
      if ra.Ok? && rb.Ok? && rl.Ok? {
        assert ra.value + rb.value + rl.value == ra.value + (rb.value + rl.value);
      }
    }
  }

  /** Reading a label file in two parts gives the ids of the first part
      followed by those of the second, and the first error met, in file
      order; with `LineIds` this pins down the ids of any file line by
      line. */
  lemma LabelIdsAppend(a: seq<string>, b: seq<string>)
    ensures LabelIds(a + b) == Then(LabelIds(a), LabelIds(b))
  {
    ReadAllAppend(a, b, LineIds);
  }

  /** Once reading has failed, later lines do not change the outcome. */
  lemma {:induction false} ReadAllErrSticky(lines: seq<string>, read: string -> Result<seq<int>>, n: nat)
    requires n <= |lines| && ReadAll(lines[..n], read).Err?
    ensures ReadAll(lines, read) == ReadAll(lines[..n], read)
    decreases |lines| - n
  {
    if n < |lines| {
      var m := |lines| - 1;
      assert lines[..m][..n] == lines[..n];
      ReadAllErrSticky(lines[..m], read, n);
    } else {
      assert lines[..n] == lines;
    }
  }

  /** Reading a single line gives what `read` makes of it. */
  lemma ReadAllOne(line: string, read: string -> Result<seq<int>>)
    ensures ReadAll([line], read) == read(line)
  {
    assert [line][..0] == [];
    var r := read(line);
    assert r.Ok? ==> [] + r.value == r.value;
  }

  /** A one-line file reads as that line's contribution. */
  lemma LabelIdsLine(line: string)
    ensures LabelIds([line]) == LineIds(line)
  {
    ReadAllOne(line, LineIds);
  }

  /** Reading one more line. */
  lemma LabelIdsStep(lines: seq<string>, i: nat)
    requires i < |lines|
    ensures LabelIds(lines[..i + 1]) == Then(LabelIds(lines[..i]), LineIds(lines[i]))
  {
    assert lines[..i + 1][..i] == lines[..i] && lines[..i + 1][i] == lines[i];
  }

  /** `parse_label_file`: walk the lines, appending `int(parts[0])` for every
      line with at least two tokens. */
  method ParseLabelFile(lines: seq<string>) returns (r: Result<seq<int>>)
    ensures r == LabelIds(lines)
  {
    var labels: seq<int> := [];
    var i := 0;
    while i < |lines|
      invariant 0 <= i <= |lines|
      invariant LabelIds(lines[..i]) == Ok(labels)
    {
      var line := lines[i];
      var parts := Split(line);
      LabelIdsStep(lines, i);
      if |parts| >= 2 {
        match ParseInt(parts[0])
        case None =>
          assert LabelIds(lines[..i + 1]).Err?;
          ReadAllErrSticky(lines, LineIds, i + 1);
          return Err(ValueError("invalid literal for int() with base 10"));
        case Some(lab) =>
          assert LineIds(line) == Ok([lab]);
          labels := labels + [lab];
      } else {
        assert LineIds(line) == Ok([]);
        assert labels + [] == labels;
      }
      i := i + 1;
    }
    assert lines[..i] == lines;
    return Ok(labels);
  }

  /** `{old: new for old, new in zip(olds, news)}`: each old id in turn is
      assigned its partner, so a repeated old id keeps its first position and
      takes its last partner. */
  function ZipDict(olds: seq<int>, news: seq<int>): (m: Dict<int, int>)
    requires |olds| == |news|
    ensures |m| <= |olds|
  {
    if olds == [] then []
    else
      var n := |olds| - 1;
      var m := ZipDict(olds[..n], news[..n]);
      var r := Put(m, olds[n], news[n]);
      r
  }

  /** The keys are exactly the old ids. */
  lemma {:induction false} ZipDictKeys(olds: seq<int>, news: seq<int>, k: int)
    requires |olds| == |news|
    ensures HasKey(ZipDict(olds, news), k) <==> k in olds
  {
    if olds != [] {
      var n := |olds| - 1;
      var m := ZipDict(olds[..n], news[..n]);
      ZipDictKeys(olds[..n], news[..n], k);
      assert olds == olds[..n] + [olds[n]];
      if k != olds[n] {
        assert Get(Put(m, olds[n], news[n]), k) == Get(m, k);
      }
    }
  }

  /** Every value is a new id. */
  lemma {:induction false} ZipDictValues(olds: seq<int>, news: seq<int>, p: (int, int))
    requires |olds| == |news|
    ensures p in ZipDict(olds, news) ==> p.1 in news
  {
    if olds != [] {
      var n := |olds| - 1;
      var m := ZipDict(olds[..n], news[..n]);
      var r := Put(m, olds[n], news[n]);
      ZipDictValues(olds[..n], news[..n], p);
      assert news == news[..n] + [news[n]];
      if p in r && p.0 != olds[n] {
        assert Get(r, p.0) == Some(p.1);
      }
    }
  }

  /** An old id that occurs in the list is mapped to the new id paired with
      its LAST occurrence. */
  lemma {:induction false} ZipDictLastWins(olds: seq<int>, news: seq<int>, i: nat)
    requires |olds| == |news| && i < |olds|
    requires forall j :: i < j < |olds| ==> olds[j] != olds[i]
    ensures Get(ZipDict(olds, news), olds[i]) == Some(news[i])
  {
    var n := |olds| - 1;
    if i < n {
      var m := ZipDict(olds[..n], news[..n]);
      assert olds[n] != olds[i];
      assert olds[..n][i] == olds[i] && news[..n][i] == news[i];
      forall j | i < j < n ensures olds[..n][j] != olds[..n][i] {
        assert olds[..n][j] == olds[j];
      }
      ZipDictLastWins(olds[..n], news[..n], i);
    }
  }

  /** `load_mapping`: read the old file, then the new file (the first error
      is re-raised), refuse lists of different lengths with ValueError, and
      zip the lists. */
  method LoadMapping(oldLines: seq<string>, newLines: seq<string>) returns (r: Result<Dict<int, int>>)
    ensures LabelIds(oldLines).Err? ==> r == Err(LabelIds(oldLines).error)
    ensures LabelIds(oldLines).Ok? && LabelIds(newLines).Err? ==> r == Err(LabelIds(newLines).error)
    ensures LabelIds(oldLines).Ok? && LabelIds(newLines).Ok? ==>
              var olds := LabelIds(oldLines).value;
              var news := LabelIds(newLines).value;
              if |olds| != |news| then r.Err? && r.error.ValueError?
              else r == Ok(ZipDict(olds, news))
  {
    var oldLabels := ParseLabelFile(oldLines);
    if oldLabels.Err? { return Err(oldLabels.error); }
    var newLabels := ParseLabelFile(newLines);
    if newLabels.Err? { return Err(newLabels.error); }
    if |oldLabels.value| != |newLabels.value| {
      return Err(ValueError("Mismatch in label count between old and new labels."));
    }
    return Ok(ZipDict(oldLabels.value, newLabels.value));
  }

  /** `process_directory`: a missing input directory ends the run quietly
      (`Ok(None)`) before either file is read; otherwise the mapping is
      loaded and every `.nii`/`.nii.gz` file of the listing is remapped and
      written under its own name in the output directory. */
  method ProcessDirectory(isDir: bool, inputDir: string, outputDir: string, listing: seq<string>,
                          oldLines: seq<string>, newLines: seq<string>)
    returns (r: Result<Option<(Dict<int, int>, seq<(string, string)>)>>)
    requires forall f :: f in listing ==> '/' !in f
    ensures !isDir ==> r == Ok(None)
    ensures isDir ==>
              var olds := LabelIds(oldLines);
              var news := LabelIds(newLines);
              if olds.Err? then r == Err(olds.error)
              else if news.Err? then r == Err(news.error)
              else if |olds.value| != |news.value| then r.Err? && r.error.ValueError?
              else r == Ok(Some((ZipDict(olds.value, news.value), Jobs(inputDir, outputDir, FilterNames(listing, IsNifti)))))
  {
    if !isDir {
      return Ok(None);
    }
    var mapping := LoadMapping(oldLines, newLines);
    if mapping.Err? {
      return Err(mapping.error);
    }
    var jobs: seq<(string, string)> := [];
    var i := 0;
    while i < |listing|
      invariant 0 <= i <= |listing|
      invariant jobs == Jobs(inputDir, outputDir, FilterNames(listing[..i], IsNifti))
    {
      var filename := listing[i];
      assert listing[..i + 1][..i] == listing[..i];
      if EndsWith(filename, ".nii.gz") || EndsWith(filename, ".nii") {
        var filePath := Join(inputDir, filename);
        BasenameJoin(inputDir, filename);
        jobs := jobs + [(filePath, Join(outputDir, Basename(filePath)))];
      }
      i := i + 1;
    }
    assert listing[..i] == listing;
    return Ok(Some((mapping.value, jobs)));
  }

  /** `main`: without `--output_dir` (or with an empty one) the output directory is the
      input directory with `-fss-order` appended. */
  function OutputDir(inputDir: string, outputDir: Option<string>): string {
    FolderIfGiven(outputDir, inputDir + "-fss-order")
  }
}
