/** Renaming to the nnU-Net convention with a CSV correspondence
    (data_utils/rename_files_nnunet_covention.py): a subject id is cut out of
    every file name between two substrings, every id not yet in the
    correspondence gets the new id `image_<i>` (with `_0000` for images)
    from the file's position `i` in the listing, and the file is moved to
    `<new id>.nii.gz` in the output folder. The directory listing and the
    correspondence read from the CSV file are inputs; the moves and the rows
    appended to the CSV file are outputs. */
module RenameCsv {
  import opened Wrappers
  import opened PyStr
  import opened Dicts
  import opened Paths
  import opened NnUnetNames

  /** `extract_sub_id`: the part of the name after the first occurrence of
      `startSub` and before the first occurrence of `endSub` that follows it;
      None when either is missing. A non-empty `endSub` never occurs in the
      id. */
  function ExtractSubId(filename: string, startSub: string, endSub: string): (r: Option<string>)
    ensures !Contains(filename, startSub) ==> r.None?
    ensures r.Some? ==> |r.value| <= |filename|
    ensures r.Some? && endSub != [] ==> !Contains(r.value, endSub)
  {
    var start := Find(filename, startSub, 0);
    if start == -1 then None
    else
      var from := start + |startSub|;
      var end := Find(filename, endSub, from);
      if end == -1 then None
      else
        var id := filename[from..end];
        assert endSub != [] ==> !Contains(id, endSub) by {
          forall j | 0 <= j <= |id| - |endSub| && endSub != [] ensures !OccursAt(id, endSub, j) {
            OccursInSlice(filename, endSub, from, end, j);
          }
        }
        Some(id)
  }

  /** Reading the id back: a name made of a part without `startSub`, then
      `startSub`, the id, `endSub` and anything, where `endSub` does not start
      inside the id, gives that id. */
  lemma SubIdBetween(pre: string, startSub: string, id: string, endSub: string, post: string)
    requires forall j :: 0 <= j < |pre| ==> !OccursAt(pre + startSub + id + endSub + post, startSub, j)
    requires forall j :: |pre| + |startSub| <= j < |pre| + |startSub| + |id| ==>
               !OccursAt(pre + startSub + id + endSub + post, endSub, j)
    ensures ExtractSubId(pre + startSub + id + endSub + post, startSub, endSub) == Some(id)
  {
    var name := pre + startSub + id + endSub + post;
    var from := |pre| + |startSub|;
    var to := from + |id|;
    assert name[|pre|..from] == startSub;
    FindFirst(name, startSub, 0, |pre|);
    assert name[to..to + |endSub|] == endSub;
    FindFirst(name, endSub, from, to);
    assert name[from..to] == id;
  }

  /** Conversely, an extracted id sits right after the first occurrence of
      `startSub` and right before an occurrence of `endSub` that is the first
      one after `startSub`. */
  lemma SubIdSplits(filename: string, startSub: string, endSub: string)
    requires ExtractSubId(filename, startSub, endSub).Some?
    ensures var id := ExtractSubId(filename, startSub, endSub).value;
            exists i :: && OccursAt(filename, startSub, i)
                        && (forall j :: 0 <= j < i ==> !OccursAt(filename, startSub, j))
                        && i + |startSub| + |id| <= |filename|
                        && filename[i + |startSub|..i + |startSub| + |id|] == id
                        && OccursAt(filename, endSub, i + |startSub| + |id|)
                        && (forall j :: i + |startSub| <= j < i + |startSub| + |id| ==> !OccursAt(filename, endSub, j))
  {
    var i := Find(filename, startSub, 0);
    var end := Find(filename, endSub, i + |startSub|);
    assert end == i + |startSub| + |ExtractSubId(filename, startSub, endSub).value|;
  }

  /** `v` is the new id of one of the first `n` positions. */
  predicate AssignedBefore(v: string, n: nat, segs: bool) {
    exists i :: 0 <= i < n && v == CaseId(i, segs)
  }

  /** The new id of position `n` is not that of an earlier position. */
  lemma NotAssignedBefore(v: string, n: nat, segs: bool)
    requires AssignedBefore(v, n, segs)
    ensures v != CaseId(n, segs)
  {
    var i :| 0 <= i < n && v == CaseId(i, segs);
    CaseIdInjective(i, n, segs);
  }

  /** The arguments of `rename_files_in_subfolder`, with the output folder
      already defaulted. */
  datatype Options = Options(subfolder: string, outputFolder: string, startSub: string, endSub: string, segs: bool)

  /** What the loop accumulates: the correspondence, the rows appended to the
      CSV file and the (old path, new path) moves, in order. */
  datatype Plan = Plan(mapping: Dict<string, string>, rows: seq<(string, string)>, moves: seq<(string, string)>)

  /** One iteration, for the file at position `i`. */
  function Step(opts: Options, p: Plan, i: nat, fileName: string): Plan {
    match ExtractSubId(fileName, opts.startSub, opts.endSub)
    case None => p
    case Some(oldId) =>
      var oldPath := Join(opts.subfolder, fileName);
      match Get(p.mapping, oldId)
      case Some(newId) =>
        Plan(p.mapping, p.rows, p.moves + [(oldPath, Join(opts.outputFolder, newId + ".nii.gz"))])
      case None =>
        var newId := CaseId(i, opts.segs);
        Plan(Put(p.mapping, oldId, newId), p.rows + [(oldId, newId)],
             p.moves + [(oldPath, Join(opts.outputFolder, newId + ".nii.gz"))])
  }

  /** The plan after the whole listing, starting from the correspondence read
      from the CSV file. The correspondence only grows, by the rows appended,
      so every entry it had is kept as it was. */
  function RenamePlan(opts: Options, mapping: Dict<string, string>, listing: seq<string>): (p: Plan)
    ensures p.mapping == mapping + p.rows
  {
    if listing == [] then Plan(mapping, [], [])
    else
      var n := |listing| - 1;
      var q := RenamePlan(opts, mapping, listing[..n]);
      var p := Step(opts, q, n, listing[n]);
      assert p.mapping == mapping + p.rows by {
        if p.rows != q.rows {
          assert q.mapping + [p.rows[|p.rows| - 1]] == mapping + (q.rows + [p.rows[|p.rows| - 1]]);
        }
      }
      p
  }

  /** A file's id maps to the same new id as before the file was seen,
      whenever it had one. */
  lemma GetOfExtension(d: Dict<string, string>, e: seq<(string, string)>, k: string)
    requires DistinctKeys(d + e) && HasKey(d, k)
    ensures Get(d + e, k) == Get(d, k)
  {
    var v := Get(d, k).value;
    assert (k, v) in d;
    assert (k, v) in d + e;
  }

  /** An id already in the correspondence is reused, never overwritten; an
      id appended gets the new id of a position of the listing, and no two
      appended rows share an old or a new id. */
  lemma {:induction false} RowsAreFresh(opts: Options, mapping: Dict<string, string>, listing: seq<string>)
    ensures var p := RenamePlan(opts, mapping, listing);
            && (forall k :: HasKey(mapping, k) ==> Get(p.mapping, k) == Get(mapping, k))
            && (forall j :: 0 <= j < |p.rows| ==> !HasKey(mapping, p.rows[j].0))
            && (forall j :: 0 <= j < |p.rows| ==> AssignedBefore(p.rows[j].1, |listing|, opts.segs))
            && (forall a, b :: 0 <= a < b < |p.rows| ==> p.rows[a].0 != p.rows[b].0 && p.rows[a].1 != p.rows[b].1)
  {
    var p := RenamePlan(opts, mapping, listing);
    forall k | HasKey(mapping, k) ensures Get(p.mapping, k) == Get(mapping, k) {
      GetOfExtension(mapping, p.rows, k);
    }
    forall j, i | 0 <= j < |p.rows| && 0 <= i < |mapping| ensures mapping[i].0 != p.rows[j].0 {
      assert p.mapping[i] == mapping[i] && p.mapping[|mapping| + j] == p.rows[j];
    }
    forall a, b | 0 <= a < b < |p.rows| ensures p.rows[a].0 != p.rows[b].0 {
      assert p.mapping[|mapping| + a] == p.rows[a] && p.mapping[|mapping| + b] == p.rows[b];
    }
    RowsAssigned(opts, mapping, listing);
    RowsDistinct(opts, mapping, listing);
  }

  /** One iteration appends at most one row, carrying the new id of the
      file's position. */
  lemma StepRows(opts: Options, q: Plan, i: nat, fileName: string)
    ensures var p := Step(opts, q, i, fileName);
            || p.rows == q.rows
            || (|p.rows| == |q.rows| + 1 && p.rows[..|q.rows|] == q.rows && p.rows[|q.rows|].1 == CaseId(i, opts.segs))
  {
  }

  /** Every appended row carries the new id of a position of the listing. */
  lemma {:induction false} RowsAssigned(opts: Options, mapping: Dict<string, string>, listing: seq<string>)
    ensures forall j :: 0 <= j < |RenamePlan(opts, mapping, listing).rows| ==>
              AssignedBefore(RenamePlan(opts, mapping, listing).rows[j].1, |listing|, opts.segs)
  {
    if listing != [] {
      var n := |listing| - 1;
      var q := RenamePlan(opts, mapping, listing[..n]);
      var p := RenamePlan(opts, mapping, listing);
      RowsAssigned(opts, mapping, listing[..n]);
      assert |listing[..n]| == n;
      StepRows(opts, q, n, listing[n]);
      forall j | 0 <= j < |p.rows| ensures AssignedBefore(p.rows[j].1, |listing|, opts.segs) {
        if j < |q.rows| {
          assert p.rows[j] == q.rows[j] by {
            if p.rows != q.rows { assert p.rows[..|q.rows|][j] == p.rows[j]; }
          }
          var i :| 0 <= i < n && q.rows[j].1 == CaseId(i, opts.segs);
          assert 0 <= i < |listing| && p.rows[j].1 == CaseId(i, opts.segs);
        } else {
          assert 0 <= n < |listing| && p.rows[j].1 == CaseId(n, opts.segs);
        }
      }
    }
  }

  /** The new ids of the appended rows come from strictly increasing
      positions, hence are pairwise different. */
  lemma {:induction false} RowsDistinct(opts: Options, mapping: Dict<string, string>, listing: seq<string>)
    ensures forall a, b :: 0 <= a < b < |RenamePlan(opts, mapping, listing).rows| ==>
              RenamePlan(opts, mapping, listing).rows[a].1 != RenamePlan(opts, mapping, listing).rows[b].1
  {
    if listing != [] {
      var n := |listing| - 1;
      var q := RenamePlan(opts, mapping, listing[..n]);
      var p := RenamePlan(opts, mapping, listing);
      RowsDistinct(opts, mapping, listing[..n]);
      RowsAssigned(opts, mapping, listing[..n]);
      assert |listing[..n]| == n;
      StepRows(opts, q, n, listing[n]);
      if p.rows != q.rows {
        forall j | 0 <= j < |q.rows| ensures p.rows[j] == q.rows[j] && p.rows[j].1 != CaseId(n, opts.segs) {
          assert p.rows[..|q.rows|][j] == p.rows[j];
          NotAssignedBefore(q.rows[j].1, n, opts.segs);
        }
      }
    }
  }

  /** One iteration moves a file exactly when it has an id, and moves it to
      `<new id>.nii.gz` where the new id is the file's entry in the
      correspondence after the iteration, whether reused or just assigned. */
  lemma StepMoves(opts: Options, q: Plan, i: nat, fileName: string)
    ensures var p := Step(opts, q, i, fileName);
            match ExtractSubId(fileName, opts.startSub, opts.endSub)
            case None => p == q
            case Some(oldId) =>
              && Get(p.mapping, oldId).Some?
              && p.moves == q.moves + [(Join(opts.subfolder, fileName), Join(opts.outputFolder, Get(p.mapping, oldId).value + ".nii.gz"))]
              && (HasKey(q.mapping, oldId) ==> Get(p.mapping, oldId) == Get(q.mapping, oldId))
  {
  }

  /** The `enumerate` loop of `rename_files_in_subfolder`: for each listed
      file with an id, reuse or assign its new id, append a CSV row for a new
      one, and move the file. */
  method RenameFilesInSubfolder(subfolder: string, outputFolder: Option<string>, startSub: string, endSub: string,
                                segs: bool, mapping: Dict<string, string>, listing: seq<string>)
    returns (renameMapping: Dict<string, string>, rows: seq<(string, string)>, moves: seq<(string, string)>)
    ensures Plan(renameMapping, rows, moves)
              == RenamePlan(Options(subfolder, FolderOrDefault(outputFolder, subfolder), startSub, endSub, segs), mapping, listing)
  {
    var output := FolderOrDefault(outputFolder, subfolder);
    var opts := Options(subfolder, output, startSub, endSub, segs);
    renameMapping, rows, moves := mapping, [], [];
    var i := 0;
    while i < |listing|
      invariant 0 <= i <= |listing|
      invariant Plan(renameMapping, rows, moves) == RenamePlan(opts, mapping, listing[..i])
    {
      var fileName := listing[i];
      assert listing[..i + 1][..i] == listing[..i];
      var oldPath := Join(subfolder, fileName);
      var oldId := ExtractSubId(fileName, startSub, endSub);
      if oldId.Some? {
        var newId;
        if HasKey(renameMapping, oldId.value) {
          newId := Get(renameMapping, oldId.value).value;
        } else {
          newId := CaseId(i, segs);
          renameMapping := Put(renameMapping, oldId.value, newId);
          rows := rows + [(oldId.value, newId)];
        }
        moves := moves + [(oldPath, Join(output, newId + ".nii.gz"))];
      }
      i := i + 1;
    }
    assert listing[..i] == listing;
  }
}
