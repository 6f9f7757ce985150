/** Label reordering by NAME (data_utils/reorder_labels_freesurfer_lut.py):
    two lookup tables are read into id -> name dictionaries, each old id is
    paired with the first new id carrying the same name, and every label map
    ending in `.nii.gz` is remapped with that correspondence. */
module FreeSurferLut {
  import opened Wrappers
  import opened PyStr
  import opened Numbers
  import opened Dicts
  import opened Paths
  import opened LabelRemap

  /** `line.startswith('#') or not line.strip()`: only a `#` in the first
      column makes a comment; an indented `#` line is read as an entry. */
  predicate IsSkipped(line: string) {
    StartsWith(line, "#") || IsBlank(line)
  }

  /** `parts[1:-3]`: the tokens between the id and the last three columns. */
  function NameTokens(parts: seq<string>): seq<string> {
    if |parts| >= 4 then parts[1..|parts| - 3] else []
  }

  /** The (id, name) entry of a kept line: `int(parts[0])` and the name
      tokens joined by single spaces; a first token that is not an integer
      raises ValueError. */
  function ParseEntry(line: string): Result<(int, string)>
    requires !IsBlank(line)
  {
    SplitSpells(line);
    var parts := Split(line);
    match ParseInt(parts[0])
    case None => Err(ValueError("invalid literal for int() with base 10"))
    case Some(id) => Ok((id, JoinWith(NameTokens(parts), " ")))
  }

  /** What one line contributes to the table: nothing for a skipped line,
      otherwise its entry or the error parsing it raised. */
  function LineEntry(line: string): Option<Result<(int, string)>> {
    if IsSkipped(line) then None else Some(ParseEntry(line))
  }

  /** A line's contribution is an entry for `id`. */
  predicate Gives(o: Option<Result<(int, string)>>, id: int) {
    o.Some? && o.value.Ok? && o.value.value.0 == id
  }

  /** The line is a kept entry line that parses to id `id`. */
  predicate Defines(line: string, id: int) {
    Gives(LineEntry(line), id)
  }

  /** The line is a kept line whose first token is not an integer. */
  predicate BadLine(line: string) {
    LineEntry(line).Some? && LineEntry(line).value.Err?
  }

  /** One step of the loop: an earlier error stands, a skipped line changes
      nothing, an entry is stored (replacing the name of an id already
      present), a bad line is the error. */
  function AddLine(r: Result<Dict<int, string>>, o: Option<Result<(int, string)>>): Result<Dict<int, string>> {
    match r
    case Err(e) => Err(e)
    case Ok(d) =>
      match o
      case None => Ok(d)
      case Some(Err(e)) => Err(e)
      case Some(Ok(kv)) => Ok(Put(d, kv.0, kv.1))
  }

  /** The dictionary built from the lines read so far, or the error of the
      first line that could not be read, for a given reading of one line. */
  function Load(lines: seq<string>, entry: string -> Option<Result<(int, string)>>): Result<Dict<int, string>> {
    if lines == [] then Ok([])
    else AddLine(Load(lines[..|lines| - 1], entry), entry(lines[|lines| - 1]))
  }

  /** The dictionary `load_labels` builds. */
  function Table(lines: seq<string>): Result<Dict<int, string>> {
    Load(lines, LineEntry)
  }

  lemma LoadStep(lines: seq<string>, entry: string -> Option<Result<(int, string)>>, i: nat)
    requires i < |lines|
    ensures Load(lines[..i + 1], entry) == AddLine(Load(lines[..i], entry), entry(lines[i]))
  {
    assert lines[..i + 1][..i] == lines[..i];
  }

  /** Once reading has failed, later lines do not change the outcome. */
  lemma {:induction false} LoadErrSticky(lines: seq<string>, entry: string -> Option<Result<(int, string)>>, n: nat)
    requires n <= |lines| && Load(lines[..n], entry).Err?
    ensures Load(lines, entry) == Load(lines[..n], entry)
    decreases |lines| - n
  {
    if n < |lines| {
      var m := |lines| - 1;
      assert lines[..m][..n] == lines[..n];
      LoadErrSticky(lines[..m], entry, n);
    } else {
      assert lines[..n] == lines;
    }
  }

  lemma {:induction false} LoadError(lines: seq<string>, entry: string -> Option<Result<(int, string)>>)
    ensures Load(lines, entry).Err? <==>
              exists i :: 0 <= i < |lines| && entry(lines[i]).Some? && entry(lines[i]).value.Err?
  {
    if lines != [] {
      var n := |lines| - 1;
      var init := lines[..n];
      LoadError(init, entry);
      if exists i :: 0 <= i < |init| && entry(init[i]).Some? && entry(init[i]).value.Err? {
        var i :| 0 <= i < |init| && entry(init[i]).Some? && entry(init[i]).value.Err?;
        assert init[i] == lines[i];
      }
      if exists i :: 0 <= i < |lines| && entry(lines[i]).Some? && entry(lines[i]).value.Err? {
        var i :| 0 <= i < |lines| && entry(lines[i]).Some? && entry(lines[i]).value.Err?;
        if i < n {
          assert init[i] == lines[i];
        }
      }
    }
  }

  lemma {:induction false} LoadAbsent(lines: seq<string>, entry: string -> Option<Result<(int, string)>>, id: int)
    requires Load(lines, entry).Ok?
    requires forall i :: 0 <= i < |lines| ==> !Gives(entry(lines[i]), id)
    ensures Get(Load(lines, entry).value, id).None?
  {
    if lines != [] {
      var init := lines[..|lines| - 1];
      assert Load(init, entry).Ok?;
      assert forall i :: 0 <= i < |init| ==> init[i] == lines[i];
      LoadAbsent(init, entry, id);
    }
  }

  lemma {:induction false} LoadPresent(lines: seq<string>, entry: string -> Option<Result<(int, string)>>, id: int, k: nat)
    requires Load(lines, entry).Ok?
    requires k < |lines| && Gives(entry(lines[k]), id)
    ensures Get(Load(lines, entry).value, id).Some?
  {
    var n := |lines| - 1;
    var init := lines[..n];
    assert Load(init, entry).Ok?;
    if k < n {
      assert init[k] == lines[k];
      LoadPresent(init, entry, id, k);
    }
  }

  lemma {:induction false} LoadLastWins(lines: seq<string>, entry: string -> Option<Result<(int, string)>>, id: int, i: nat)
    requires Load(lines, entry).Ok?
    requires i < |lines| && Gives(entry(lines[i]), id)
    requires forall j :: i < j < |lines| ==> !Gives(entry(lines[j]), id)
    ensures Get(Load(lines, entry).value, id) == Some(entry(lines[i]).value.value.1)
  {
    var init := lines[..|lines| - 1];
    assert Load(init, entry).Ok?;
    if i < |init| {
      assert init[i] == lines[i];
      assert forall j :: i < j < |init| ==> init[j] == lines[j];
      LoadLastWins(init, entry, id, i);
    }
  }

  /** Reading fails exactly when some kept line has a first token that is
      not an integer. */
  lemma TableError(lines: seq<string>)
    ensures Table(lines).Err? <==> exists i :: 0 <= i < |lines| && BadLine(lines[i])
  {
    LoadError(lines, LineEntry);
  }

  /** When reading succeeds, an id is in the table exactly when some kept
      line defines it, and its name is the one on the last such line: later
      lines win. */
  lemma TableLookup(lines: seq<string>, id: int)
    requires Table(lines).Ok?
    ensures Get(Table(lines).value, id).None? <==> forall i :: 0 <= i < |lines| ==> !Defines(lines[i], id)
    ensures forall i :: 0 <= i < |lines| && Defines(lines[i], id) && (forall j :: i < j < |lines| ==> !Defines(lines[j], id))
               ==> Get(Table(lines).value, id) == Some(ParseEntry(lines[i]).value.1)
  {
    if forall i :: 0 <= i < |lines| ==> !Defines(lines[i], id) {
      LoadAbsent(lines, LineEntry, id);
    } else {
      var k :| 0 <= k < |lines| && Defines(lines[k], id);
      LoadPresent(lines, LineEntry, id, k);
    }
    forall i | 0 <= i < |lines| && Defines(lines[i], id) && (forall j :: i < j < |lines| ==> !Defines(lines[j], id))
      ensures Get(Table(lines).value, id) == Some(ParseEntry(lines[i]).value.1)
    {
      LoadLastWins(lines, LineEntry, id, i);
    }
  }

  /** `load_labels`: read the table line by line into a dictionary. */
  method LoadLabels(lines: seq<string>) returns (r: Result<Dict<int, string>>)
    ensures r == Table(lines)
  {
    var labels: Dict<int, string> := [];
    var i := 0;
    while i < |lines|
      invariant 0 <= i <= |lines|
      invariant Table(lines[..i]) == Ok(labels)
    {
      var line := lines[i];
      LoadStep(lines, LineEntry, i);
      if !IsSkipped(line) {
        match ParseEntry(line)
        case Err(e) =>
          LoadErrSticky(lines, LineEntry, i + 1);
          return Err(e);
        case Ok(entry) =>
          labels := Put(labels, entry.0, entry.1);
      }
      i := i + 1;
    }
    assert lines[..i] == lines;
    return Ok(labels);
  }

  /** The first id, in dictionary order, whose name is `name`. */
  function FirstNamed(table: Dict<int, string>, name: string): (r: Option<int>)
    ensures r.None? <==> forall j :: 0 <= j < |table| ==> table[j].1 != name
    ensures r.Some? ==> exists j :: 0 <= j < |table| && table[j] == (r.value, name)
                                    && forall j' :: 0 <= j' < j ==> table[j'].1 != name
  {
    if table == [] then None
    else if table[0].1 == name then Some(table[0].0)
    else
      var r := FirstNamed(table[1..], name);
      assert forall j :: 1 <= j < |table| ==> table[1..][j - 1] == table[j];
      r
  }

  /** The correspondence `create_mapping` builds: every old id whose name
      occurs in the new table, paired with the first new id of that name, in
      old-table order. */
  function NameMapping(oldLabels: Dict<int, string>, newLabels: Dict<int, string>): (m: Dict<int, int>)
    ensures forall p :: p in m ==> HasKey(oldLabels, p.0)
  {
    if oldLabels == [] then []
    else
      var init: Dict<int, string> := oldLabels[..|oldLabels| - 1];
      var last := oldLabels[|oldLabels| - 1];
      var m := NameMapping(init, newLabels);
      assert !HasKey(init, last.0);
      assert forall k :: HasKey(init, k) ==> HasKey(oldLabels, k);
      match FirstNamed(newLabels, last.1)
      case None => m
      case Some(v) => m + [(last.0, v)]
  }

  /** Each old id maps to the first new id, in new-table order, whose name is
      equal to its own; old ids whose name is not in the new table are absent.
      So keys are old ids and values are new ids. */
  lemma {:induction false} NameMappingSpec(oldLabels: Dict<int, string>, newLabels: Dict<int, string>, k: int, v: int)
    ensures (k, v) in NameMapping(oldLabels, newLabels) <==>
              exists name :: (k, name) in oldLabels && FirstNamed(newLabels, name) == Some(v)
  {
    if oldLabels != [] {
      var init: Dict<int, string> := oldLabels[..|oldLabels| - 1];
      var last := oldLabels[|oldLabels| - 1];
      NameMappingSpec(init, newLabels, k, v);
      assert forall p :: p in oldLabels <==> p in init || p == last;
      assert forall name :: (last.0, name) !in init;
    }
  }

  /** `create_mapping`: for each old entry, scan the new table for the first
      entry with the same name and record it. */
  method CreateMapping(oldLabels: Dict<int, string>, newLabels: Dict<int, string>) returns (mapping: Dict<int, int>)
    ensures mapping == NameMapping(oldLabels, newLabels)
  {
    mapping := [];
    var i := 0;
    while i < |oldLabels|
      invariant 0 <= i <= |oldLabels|
      invariant mapping == NameMapping(oldLabels[..i], newLabels)
    {
      var (oldId, oldName) := oldLabels[i];
      var prefix: Dict<int, string> := oldLabels[..i];
      var extended: Dict<int, string> := oldLabels[..i + 1];
      assert extended[..i] == prefix;
      assert !HasKey(prefix, oldId);
      assert !HasKey(mapping, oldId);
      var j := 0;
      while j < |newLabels|
        invariant 0 <= j <= |newLabels|
        invariant mapping == NameMapping(prefix, newLabels)
        invariant forall j' :: 0 <= j' < j ==> newLabels[j'].1 != oldName
      {
        var (newId, newName) := newLabels[j];
        if oldName == newName {
          assert FirstNamed(newLabels, oldName) == Some(newId);
          mapping := Put(mapping, oldId, newId);
          break;
        }
        j := j + 1;
      }
      assert mapping == NameMapping(extended, newLabels);
      i := i + 1;
    }
    assert oldLabels[..i] == oldLabels;
  }

  /** `process_directory`: load both tables (old first), build the
      correspondence, then process each listed `.nii.gz` file, writing it
      under the same base name in the output directory. The result is the
      correspondence and the (input path, output path) of every processed
      file, in listing order. */
  method ProcessDirectory(inputDir: string, outputDir: string, listing: seq<string>,
                          oldLines: seq<string>, newLines: seq<string>)
    returns (r: Result<(Dict<int, int>, seq<(string, string)>)>)
    requires forall f :: f in listing ==> '/' !in f
    ensures Table(oldLines).Err? ==> r == Err(Table(oldLines).error)
    ensures Table(oldLines).Ok? && Table(newLines).Err? ==> r == Err(Table(newLines).error)
    ensures Table(oldLines).Ok? && Table(newLines).Ok? ==>
              && r.Ok?
              && r.value.0 == NameMapping(Table(oldLines).value, Table(newLines).value)
              && r.value.1 == Jobs(inputDir, outputDir, FilterNames(listing, IsNiiGz))
  {
    var oldLabels := LoadLabels(oldLines);
    if oldLabels.Err? { return Err(oldLabels.error); }
    var newLabels := LoadLabels(newLines);
    if newLabels.Err? { return Err(newLabels.error); }
    var mapping := CreateMapping(oldLabels.value, newLabels.value);
    var jobs: seq<(string, string)> := [];
    var i := 0;
    while i < |listing|
      invariant 0 <= i <= |listing|
      invariant jobs == Jobs(inputDir, outputDir, FilterNames(listing[..i], IsNiiGz))
    {
      var filename := listing[i];
      assert listing[..i + 1][..i] == listing[..i];
      if IsNiiGz(filename) {
        var filePath := Join(inputDir, filename);
        BasenameJoin(inputDir, filename);
        jobs := jobs + [(filePath, Join(outputDir, Basename(filePath)))];
      }
      i := i + 1;
    }
    assert listing[..i] == listing;
    return Ok((mapping, jobs));
  }

  /** `main`: without `-o` (or with an empty one) the output directory is the
      input directory with `-freesurfer-labels` appended. */
  function OutputDir(inputDir: string, outputDir: Option<string>): string {
    FolderIfGiven(outputDir, inputDir + "-freesurfer-labels")
  }
}
