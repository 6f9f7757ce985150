/** Renaming to the nnU-Net convention with a JSON correspondence
    (data_utils/rename_files_nnunet_convention.py): the subject id of every
    NIfTI file is cut out of its name with up to two extensions removed,
    an id not yet in the correspondence gets itself (label maps) or itself
    with `_0000` (images) as new id, and the file is moved to
    `<new id>.nii.gz` in the output folder. The listing and the
    correspondence read from the JSON file are inputs; the moves and the
    correspondence written back are outputs. */
module RenameJson {
  import opened Wrappers
  import opened PyStr
  import opened Dicts
  import opened Paths
  import RenameCsv

  /** Python truthiness of an optional string: given and not empty. */
  predicate Truthy(s: Option<string>) {
    s.Some? && s.value != []
  }

  /** `extract_sub_id` on the name without its extensions: with neither
      substring given (None or empty) the id is the whole base; otherwise the
      part after the first `startSub` (or from the start when `startSub` is
      empty) up to the first following `endSub` (or to the end when `endSub`
      is not given). A missing substring gives None; a `startSub` of None
      with an `endSub` raises TypeError from `len(None)`. */
  function SubIdOfBase(base: string, startSub: Option<string>, endSub: Option<string>): (r: Result<Option<string>>)
    ensures r.Err? <==> startSub.None? && Truthy(endSub)
    ensures r.Err? ==> r.error.TypeError?
    ensures !Truthy(startSub) && !Truthy(endSub) ==> r == Ok(Some(base))
    ensures Truthy(startSub) && !Contains(base, startSub.value) ==> r == Ok(None)
    ensures r.Ok? && r.value.Some? && !Truthy(endSub) ==> EndsWith(base, r.value.value)
    ensures r.Ok? && r.value.Some? && Truthy(endSub) ==> !Contains(r.value.value, endSub.value)
  {
    if !Truthy(startSub) && !Truthy(endSub) then Ok(Some(base))
    else
      var start := if Truthy(startSub) then Find(base, startSub.value, 0) else 0;
      if start == -1 then Ok(None)
      else if startSub.None? then Err(TypeError("object of type 'NoneType' has no len()"))
      else
        var from := start + |startSub.value|;
        var end := if Truthy(endSub) then Find(base, endSub.value, from) else |base|;
        if end == -1 then Ok(None)
        else
          var id := base[from..end];
          assert Truthy(endSub) ==> !Contains(id, endSub.value) by {
            if Truthy(endSub) {
              forall j | 0 <= j <= |id| - |endSub.value| ensures !OccursAt(id, endSub.value, j) {
                OccursInSlice(base, endSub.value, from, end, j);
              }
            }
          }
          Ok(Some(id))
  }

  /** With a start substring that is found (an empty one is found at 0) and
      no end substring, the id is the rest of the base after the first
      `startSub`. */
  lemma SubIdOfBaseToEnd(base: string, startSub: string, endSub: Option<string>)
    requires Find(base, startSub, 0) != -1 && !Truthy(endSub)
    ensures var from := Find(base, startSub, 0) + |startSub|;
            && 0 <= from <= |base|
            && SubIdOfBase(base, Some(startSub), endSub) == Ok(Some(base[from..]))
  {
    if startSub == [] {
      FindEmpty(base);
      WholeBase(base);
    } else {
      RestOfBase(base, startSub, endSub);
    }
  }

  /** Slicing from 0 keeps the whole base. */
  lemma WholeBase(base: string)
    ensures base[0..] == base
  {
  }

  /** The non-empty start case of `SubIdOfBaseToEnd`. */
  lemma RestOfBase(base: string, startSub: string, endSub: Option<string>)
    requires startSub != [] && Find(base, startSub, 0) != -1 && !Truthy(endSub)
    ensures SubIdOfBase(base, Some(startSub), endSub) == Ok(Some(base[Find(base, startSub, 0) + |startSub|..]))
  {
  }

  /** With a start substring that is found and an end substring, the id runs
      from the first `startSub` to the first `endSub` that follows it, and
      there is no id when none follows. */
  lemma SubIdOfBaseToMarker(base: string, startSub: string, endSub: string)
    requires Find(base, startSub, 0) != -1 && endSub != []
    ensures var from := Find(base, startSub, 0) + |startSub|;
            && 0 <= from <= |base|
            && (Find(base, endSub, from) == -1 ==> SubIdOfBase(base, Some(startSub), Some(endSub)) == Ok(None))
            && (Find(base, endSub, from) != -1 ==>
                  SubIdOfBase(base, Some(startSub), Some(endSub)) == Ok(Some(base[from..Find(base, endSub, from)])))
  {
    if startSub == [] {
      FindEmpty(base);
    }
  }

  /** A start substring without an end keeps the rest of the base after it. */
  lemma SubIdOfBaseStartOnly()
    ensures SubIdOfBase("ab_sub01", Some("sub"), None) == Ok(Some("01"))
  {
    var a := "ab_sub01";
    assert a[0..3] == "ab_" && a[1..4] == "b_s" && a[2..5] == "_su" && a[3..6] == "sub";
    FindFirst(a, "sub", 0, 3);
    SubIdOfBaseToEnd(a, "sub", None);
    assert a[6..] == "01";
  }

  /** An empty start substring with an end keeps the prefix before the first
      end substring. */
  lemma SubIdOfBaseEmptyStart()
    ensures SubIdOfBase("sub01_T1w", Some(""), Some("_")) == Ok(Some("sub01"))
  {
    var b := "sub01_T1w";
    FindEmpty(b);
    assert b[0..1] == "s" && b[1..2] == "u" && b[2..3] == "b" && b[3..4] == "0" && b[4..5] == "1" && b[5..6] == "_";
    FindFirst(b, "_", 0, 5);
    SubIdOfBaseToMarker(b, "", "_");
    assert b[0..5] == "sub01";
  }

  /** `extract_sub_id`: the id is looked for in the name with up to two
      extensions removed, so with no substrings it is that stripped name. */
  function ExtractSubId(filename: string, startSub: Option<string>, endSub: Option<string>): (r: Result<Option<string>>)
    ensures !Truthy(startSub) && !Truthy(endSub) ==> r == Ok(Some(StripTwoExtensions(filename)))
  {
    SubIdOfBase(StripTwoExtensions(filename), startSub, endSub)
  }

  /** With both substrings given and non-empty, the id is the one the CSV
      variant cuts out of the same string. */
  lemma SubIdAgreesWithCsv(base: string, startSub: string, endSub: string)
    requires startSub != [] && endSub != []
    ensures SubIdOfBase(base, Some(startSub), Some(endSub)) == Ok(RenameCsv.ExtractSubId(base, startSub, endSub))
  {
  }

  /** For `<stem>.nii.gz` and `<stem>.nii` with a plain stem, the id is cut out
      of the stem: the extensions never take part in the search. */
  lemma ExtractSubIdOfStem(stem: string, startSub: Option<string>, endSub: Option<string>)
    requires stem != [] && '.' !in stem && '/' !in stem
    ensures ExtractSubId(stem + ".nii.gz", startSub, endSub) == SubIdOfBase(stem, startSub, endSub)
    ensures ExtractSubId(stem + ".nii", startSub, endSub) == SubIdOfBase(stem, startSub, endSub)
  {
    StripTwoExtensionsNifti(stem);
  }

  /** The new id of an old id not yet in the correspondence. */
  function NewId(oldId: string, segms: bool): string {
    if segms then oldId else oldId + "_0000"
  }

  /** The arguments of `rename_files_in_subfolder`, with the output folder
      already defaulted. */
  datatype Options = Options(inputDir: string, outputFolder: string, startSub: Option<string>,
                             endSub: Option<string>, segms: bool)

  /** What the loop accumulates: the correspondence and the (old path, new
      path) moves, in order. */
  datatype Plan = Plan(mapping: Dict<string, string>, moves: seq<(string, string)>)

  /** One iteration: skip a name that is not `.nii.gz`/`.nii` or has no id,
      reuse the new id of a known old id, assign one to an unknown old id. */
  function Step(opts: Options, p: Plan, fileName: string): Result<Plan> {
    if !IsNifti(fileName) then Ok(p)
    else match ExtractSubId(fileName, opts.startSub, opts.endSub)
      case Err(e) => Err(e)
      case Ok(None) => Ok(p)
      case Ok(Some(oldId)) =>
        var oldPath := Join(opts.inputDir, fileName);
        match Get(p.mapping, oldId)
        case Some(newId) => Ok(Plan(p.mapping, p.moves + [(oldPath, Join(opts.outputFolder, newId + ".nii.gz"))]))
        case None =>
          var newId := NewId(oldId, opts.segms);
          Ok(Plan(Put(p.mapping, oldId, newId), p.moves + [(oldPath, Join(opts.outputFolder, newId + ".nii.gz"))]))
  }

  /** The plan after the whole listing, or the first error raised. */
  function RenamePlan(opts: Options, mapping: Dict<string, string>, listing: seq<string>): Result<Plan> {
    if listing == [] then Ok(Plan(mapping, []))
    else
      match RenamePlan(opts, mapping, listing[..|listing| - 1])
      case Err(e) => Err(e)
      case Ok(q) => Step(opts, q, listing[|listing| - 1])
  }

  /** The loop fails exactly when `startSub` is None, `endSub` is given and
      some NIfTI file is listed; it fails at the first such file. */
  lemma {:induction false} RenamePlanError(opts: Options, mapping: Dict<string, string>, listing: seq<string>)
    ensures RenamePlan(opts, mapping, listing).Err? <==>
              opts.startSub.None? && Truthy(opts.endSub) && exists i :: 0 <= i < |listing| && IsNifti(listing[i])
  {
    if listing != [] {
      var n := |listing| - 1;
      RenamePlanError(opts, mapping, listing[..n]);
      assert forall i :: 0 <= i < n ==> listing[..n][i] == listing[i];
      if !IsNifti(listing[n]) {
        assert forall i :: 0 <= i < |listing| && IsNifti(listing[i]) ==> i < n;
      } else if RenamePlan(opts, mapping, listing[..n]).Ok? {
        assert RenamePlan(opts, mapping, listing).Err? <==>
                 ExtractSubId(listing[n], opts.startSub, opts.endSub).Err?;
      }
    }
  }

  /** The correspondence only grows: the entries read from the JSON file
      stay first and unchanged, and every entry added maps an old id to its
      new id. */
  lemma {:induction false} RenamePlanExtends(opts: Options, mapping: Dict<string, string>, listing: seq<string>)
    requires RenamePlan(opts, mapping, listing).Ok?
    ensures |RenamePlan(opts, mapping, listing).value.mapping| >= |mapping|
    ensures RenamePlan(opts, mapping, listing).value.mapping[..|mapping|] == mapping
    ensures forall j :: |mapping| <= j < |RenamePlan(opts, mapping, listing).value.mapping| ==>
              RenamePlan(opts, mapping, listing).value.mapping[j].1
                == NewId(RenamePlan(opts, mapping, listing).value.mapping[j].0, opts.segms)
  {
    if listing != [] {
      var n := |listing| - 1;
      RenamePlanExtends(opts, mapping, listing[..n]);
      var q := RenamePlan(opts, mapping, listing[..n]).value;
      var p := RenamePlan(opts, mapping, listing).value;
      StepExtends(opts, q, listing[n]);
      assert p.mapping[..|mapping|] == q.mapping[..|q.mapping|][..|mapping|];
    }
  }

  /** One iteration keeps the correspondence and at most appends the entry
      `(old id, new id)` of an unknown old id. */
  lemma StepExtends(opts: Options, q: Plan, fileName: string)
    requires Step(opts, q, fileName).Ok?
    ensures var m := Step(opts, q, fileName).value.mapping;
            || m == q.mapping
            || (exists k :: !HasKey(q.mapping, k) && m == q.mapping + [(k, NewId(k, opts.segms))])
  {
  }

  /** One file's step: a file that is not NIfTI, or has no id, leaves the
      plan as it was; an id that cannot be cut out stops the run with its
      error; a file with an id is moved to the name that id has in the
      correspondence afterwards, an id already there keeps its new id and a
      new one gets `NewId`. */
  lemma StepMoves(opts: Options, q: Plan, fileName: string)
    ensures !IsNifti(fileName) ==> Step(opts, q, fileName) == Ok(q)
    ensures IsNifti(fileName) ==>
              match ExtractSubId(fileName, opts.startSub, opts.endSub)
              case Err(e) => Step(opts, q, fileName) == Err(e)
              case Ok(None) => Step(opts, q, fileName) == Ok(q)
              case Ok(Some(oldId)) =>
                && Step(opts, q, fileName).Ok?
                && var p := Step(opts, q, fileName).value;
                   && Get(p.mapping, oldId).Some?
                   && p.moves == q.moves + [(Join(opts.inputDir, fileName), Join(opts.outputFolder, Get(p.mapping, oldId).value + ".nii.gz"))]
                   && (HasKey(q.mapping, oldId) ==> p.mapping == q.mapping)
                   && (!HasKey(q.mapping, oldId) ==> Get(p.mapping, oldId) == Some(NewId(oldId, opts.segms)))
  {
  }

  /** Once the loop has failed, later files do not change the outcome. */
  lemma {:induction false} RenamePlanErrSticky(opts: Options, mapping: Dict<string, string>, listing: seq<string>, k: nat)
    requires k <= |listing| && RenamePlan(opts, mapping, listing[..k]).Err?
    ensures RenamePlan(opts, mapping, listing) == RenamePlan(opts, mapping, listing[..k])
    decreases |listing| - k
  {
    if k < |listing| {
      var n := |listing| - 1;
      assert listing[..n][..k] == listing[..k];
      RenamePlanErrSticky(opts, mapping, listing[..n], k);
    } else {
      assert listing[..k] == listing;
    }
  }

  /** The loop of `rename_files_in_subfolder` over the listing, updating the
      correspondence in place and moving every NIfTI file that has an id. */
  method RenameFilesInSubfolder(inputDir: string, outputFolder: Option<string>, startSub: Option<string>,
                                endSub: Option<string>, segms: bool, mapping: Dict<string, string>, listing: seq<string>)
    returns (r: Result<Plan>)
    ensures r == RenamePlan(Options(inputDir, FolderOrDefault(outputFolder, inputDir), startSub, endSub, segms), mapping, listing)
  {
    var output := FolderOrDefault(outputFolder, inputDir);
    var opts := Options(inputDir, output, startSub, endSub, segms);
    var renameMapping := mapping;
    var moves: seq<(string, string)> := [];
    var i := 0;
    while i < |listing|
      invariant 0 <= i <= |listing|
      invariant RenamePlan(opts, mapping, listing[..i]) == Ok(Plan(renameMapping, moves))
    {
      var fileName := listing[i];
      ghost var before := Plan(renameMapping, moves);
      assert RenamePlan(opts, mapping, listing[..i + 1]) == Step(opts, before, fileName) by {
        assert listing[..i + 1][..i] == listing[..i];
      }
      if IsNifti(fileName) {
        var oldPath := Join(inputDir, fileName);
        var oldId := ExtractSubId(fileName, startSub, endSub);
        if oldId.Err? {
          RenamePlanErrSticky(opts, mapping, listing, i + 1);
          return Err(oldId.error);
        }
        if oldId.value.Some? {
          var known := Get(renameMapping, oldId.value.value);
          var newId;
          if known.Some? {
            newId := known.value;
          } else {
            newId := NewId(oldId.value.value, segms);
            renameMapping := Put(renameMapping, oldId.value.value, newId);
          }
          moves := moves + [(oldPath, Join(output, newId + ".nii.gz"))];
        }
      }
      i := i + 1;
    }
    assert listing[..i] == listing;
    return Ok(Plan(renameMapping, moves));
  }
}
