# GOUHFI data-preparation utilities in Dafny

This project models the data-preparation scripts of GOUHFI, a brain
segmentation toolbox for ultra-high-field MRI. It covers four groups of
scripts.

- **Label reordering.** Two scripts build a correspondence between old and
  new label ids and rewrite integer label maps with it.
  - `data_utils/reorder_labels_freesurfer_lut.py` matches label *names*
    between two FreeSurfer-style lookup tables.
  - `data-utils/reorder_labels_freesurfer_lut.py` pairs two id lists by
    *position*.
- **Extra-cerebral label.** `data_utils/add_extra_cerebral_label.py` gives a
  new label to the background voxels under a brain mask. The model also
  covers its file lookup, output naming, interpolation-order table and
  mask-morphology gates.
- **Brain extraction.** `data_utils/brain_extraction_antspynet.py` and
  `data-utils/brain-extraction.py` are modelled for:
  - the largest-connected-component selection (histogram, background bin
    forced to 0, first argmax);
  - the morphology mask: that component, closed, then through the
    dilation gate;
  - the `skip_morpho` branches;
  - the output and mask names;
  - the pairing of masks with images in mask-folder mode.
- **Renaming and pairing.** This group covers:
  - the two nnU-Net rename scripts: subject-id extraction, and a
    correspondence that is reused and only ever extended;
  - `match_subject_ids` and the method dispatch of
    `data_utils/conform_labels.py`;
  - the sorted, position-named conversion plans of
    `data-utils/conform_images.py` and `data-utils/conform-images.py`.

## How the model is built

Python's own building blocks are modelled once and shared by all the
scripts:

- `PyStr`: `str.split`, `find`, `in`, `replace` and `startswith`/`endswith`.
- `Paths`: POSIX `os.path.basename`, `dirname`, `join` and `splitext`.
- `Numbers`: `int()` and `f"{i:04d}"`.
- `Sorting`: `sorted` on strings.
- `Dicts`: an insertion-ordered `dict`, as a sequence of pairs with distinct
  keys. Assigning to an existing key keeps that key's position.

How the scripts appear in the model:

- Each loop of a script is a `method` with a `while` loop. It is proved equal
  to a recursive specification function over a prefix of its input. The
  properties the scripts rely on are proved as lemmas about those functions.
- A voxel grid is a flat array or sequence. Every grid operation here is
  voxel-wise, so positions never interact.
- Directory listings, file contents and lookup tables are inputs. Files
  written or moved are outputs, as (source, destination) pairs.
- Library calls are passed in as function parameters, or their results are
  passed in as inputs. This covers connected-component labelling,
  morphology and the network.

## Model

| member | source | states |
|---|---|---|
| FreeSurferLut.TableError | data_utils/reorder_labels_freesurfer_lut.py:29-36 | Loading a lookup table raises exactly when some line that is not skipped has a first token that is not an integer. |
| FreeSurferLut.TableLookup | data_utils/reorder_labels_freesurfer_lut.py:31-36 | An id is absent exactly when no kept line defines it. When several lines define an id, the name of the last one wins. |
| FreeSurferLut.LoadError | data_utils/reorder_labels_freesurfer_lut.py:29-36 | For any per-line reader, the line-by-line load fails iff some line's reading fails. |
| FreeSurferLut.LoadErrSticky | data_utils/reorder_labels_freesurfer_lut.py:29-36 | Once the load has raised, later lines do not change the outcome. |
| FreeSurferLut.LoadAbsent | data_utils/reorder_labels_freesurfer_lut.py:29-36 | An id no line gives is not a key of the loaded table. |
| FreeSurferLut.LoadPresent | data_utils/reorder_labels_freesurfer_lut.py:29-36 | An id some line gives is a key of the loaded table. |
| FreeSurferLut.LoadLastWins | data_utils/reorder_labels_freesurfer_lut.py:33-36 | The stored name is that of the last line giving the id, because a later assignment overwrites an earlier one. |
| FreeSurferLut.LoadLabels | data_utils/reorder_labels_freesurfer_lut.py:25-37 | The reading loop skips lines starting with `#` and blank lines, parses the rest, and returns the table specified above or its ValueError. |
| FreeSurferLut.FirstNamed | data_utils/reorder_labels_freesurfer_lut.py:44-47 | The inner scan finds nothing iff no new entry carries the name. Otherwise it returns the id of the first such entry in table order. |
| FreeSurferLut.NameMapping | data_utils/reorder_labels_freesurfer_lut.py:39-48 | Every key of the correspondence is an old id. |
| FreeSurferLut.NameMappingSpec | data_utils/reorder_labels_freesurfer_lut.py:39-48 | `(k, v)` is in the correspondence iff `k` is an old id and `v` is the first new id carrying `k`'s name. Old ids with no match are absent. |
| FreeSurferLut.CreateMapping | data_utils/reorder_labels_freesurfer_lut.py:39-48 | The nested loop with `break` builds exactly that correspondence. |
| FreeSurferLut.ProcessDirectory | data_utils/reorder_labels_freesurfer_lut.py:82-97 | The old table's error is raised first, then the new table's. Otherwise the result is the name correspondence plus one job per `.nii.gz` file in listing order, written under the same base name in the output directory. |
| LabelRemap.RemapLabels | data_utils/reorder_labels_freesurfer_lut.py:64-67 | Copy and overwrite pair by pair, each test against the rounded original. This yields a fresh grid of the same length with every voxel equal to `mapping.get(orig, orig)`. |
| LabelRemap.AppliedIsLookup | data_utils/reorder_labels_freesurfer_lut.py:65-67 | Applying the overwrites in dictionary order gives the partner of a key and leaves any other label unchanged. |
| LabelRemap.AppliedOrderIndependent | data-utils/reorder_labels_freesurfer_lut.py:54-56 | With distinct keys, the order in which the pairs are applied does not matter. |
| LabelRemap.AppliedIsRelabel | data-utils/reorder_labels_freesurfer_lut.py:53-56 | The pair-by-pair overwrite equals the single lookup `mapping.get(orig, orig)`. |
| LabelRemap.RelabelSpec | data_utils/reorder_labels_freesurfer_lut.py:67 | A key becomes its partner in the correspondence. A label that is not a key passes through unchanged. |
| LabelRemap.NoChaining | data_utils/reorder_labels_freesurfer_lut.py:67 | With `{1: 2, 2: 3}` a 1 becomes 2 (not 3), a 2 becomes 3 and a 0 stays 0. |
| LabelRemap.Jobs | data-utils/reorder_labels_freesurfer_lut.py:66-85 | Each processed file is read from the input directory and written under its own name in the output directory, in order. |
| FssOrderLut.LineIds | data-utils/reorder_labels_freesurfer_lut.py:13-16 | A line with fewer than two tokens contributes nothing. Otherwise it contributes the integer of its first token. It raises ValueError iff that token is not an integer. There is no comment skipping. |
| FssOrderLut.LabelIdsError | data-utils/reorder_labels_freesurfer_lut.py:12-16 | Reading a label file fails iff some line with two or more tokens has a non-integer first token. |
| FssOrderLut.ReadAllError | data-utils/reorder_labels_freesurfer_lut.py:12-16 | For any per-line reader, reading fails iff reading some line fails. |
| FssOrderLut.ReadAllAppend | data-utils/reorder_labels_freesurfer_lut.py:12-16 | Reading in two parts gives the first part's ids followed by the second's, and the first error met in file order. |
| FssOrderLut.LabelIdsAppend | data-utils/reorder_labels_freesurfer_lut.py:12-16 | A label file read in two parts gives the ids of each part in file order. |
| FssOrderLut.ReadAllErrSticky | data-utils/reorder_labels_freesurfer_lut.py:12-16 | Once reading has raised, later lines do not change the outcome. |
| FssOrderLut.ReadAllOne | data-utils/reorder_labels_freesurfer_lut.py:12-16 | A one-line file reads as what the reader makes of that line. |
| FssOrderLut.LabelIdsLine | data-utils/reorder_labels_freesurfer_lut.py:13-16 | A one-line label file reads as that line's contribution. |
| FssOrderLut.ParseLabelFile | data-utils/reorder_labels_freesurfer_lut.py:9-17 | The appending loop returns the ids of all read lines in file order, or the first ValueError. |
| FssOrderLut.ZipDict | data-utils/reorder_labels_freesurfer_lut.py:29 | The zipped dictionary has at most as many entries as there are old ids. |
| FssOrderLut.ZipDictKeys | data-utils/reorder_labels_freesurfer_lut.py:29 | The keys are exactly the old ids. |
| FssOrderLut.ZipDictValues | data-utils/reorder_labels_freesurfer_lut.py:29 | Every value is one of the new ids. |
| FssOrderLut.ZipDictLastWins | data-utils/reorder_labels_freesurfer_lut.py:29 | An old id maps to the new id paired with its last occurrence. |
| FssOrderLut.LoadMapping | data-utils/reorder_labels_freesurfer_lut.py:6-37 | The old file's error is re-raised first, then the new file's. Lists of different lengths raise ValueError. Otherwise the result is the zipped dictionary. |
| FssOrderLut.ProcessDirectory | data-utils/reorder_labels_freesurfer_lut.py:70-87 | A missing input directory returns quietly before anything is read. Otherwise the result is the mapping (or its error) plus one job per `.nii.gz` or `.nii` file, written under its own name. |
| ExtraLabel.AddExtra | data_utils/add_extra_cerebral_label.py:41-44 | A voxel becomes `extra` where the mask is positive and the label is 0. Every other voxel keeps its label, so a non-zero label is never overwritten. |
| ExtraLabel.AddExtraIdempotent | data_utils/add_extra_cerebral_label.py:43 | Adding the label twice with the same mask and value equals adding it once. |
| ExtraLabel.AddExtraOnlyBackground | data_utils/add_extra_cerebral_label.py:43 | A voxel that changes was 0, lies under the mask and now holds `extra`. |
| ExtraLabel.AddExtraLabel | data_utils/add_extra_cerebral_label.py:41-44 | The label map is copied, then written in place at the masked background voxels. The result is a fresh array equal to `AddExtra` of the input, and the input is untouched. |
| ExtraLabel.GetMaskedImageFilename | data_utils/add_extra_cerebral_label.py:46-56 | A base name ending in `.mgz`, `.nii.gz` or `.nii` gives a name ending in `_masked.nii.gz`. Any other name exits with "Wrong image file extension.". |
| ExtraLabel.MaskedSuffix | data_utils/add_extra_cerebral_label.py:48-53 | Replacing the matched extension leaves a name that ends in `_masked.nii.gz`. |
| ExtraLabel.MaskedNameOfStem | data_utils/add_extra_cerebral_label.py:46-56 | For `<stem><ext>` with a plain stem, in any directory, the result is `<stem>_masked.nii.gz` for each of the three extensions. |
| ExtraLabel.ExtensionTests | data_utils/add_extra_cerebral_label.py:48-53 | A name ending in `.nii.gz` does not end in `.mgz`. A name ending in `.nii` ends in neither, so the tests pick the extension the name has. |
| ExtraLabel.FindFile | data_utils/add_extra_cerebral_label.py:8-13 | Returns None iff no listed name contains the substring and has a `.nii`, `.nii.gz` or `.mgz` ending. Otherwise returns the first such name, joined to the directory. |
| ExtraLabel.ProcessMask | data_utils/add_extra_cerebral_label.py:37-39 | Without hole filling and with no (or zero) dilation iterations, the mask is returned unchanged. Hole filling and dilation are applied exactly when their flags are truthy. |
| ExtraLabel.InterpolationOrder | data_utils/add_extra_cerebral_label.py:28-35 | The table as written: `cubic` gives 3, `nearest` 0 and `linear` 2. Any other name leaves `order` unbound (UnboundLocalError). |
| ExtraLabel.LinearIsQuadratic | data_utils/add_extra_cerebral_label.py:32-33 | As written, `linear` gives spline order 2, while linear interpolation is order 1. |
| ExtraLabel.InterpolationOrderFixed | data_utils/add_extra_cerebral_label.py:28-35 | The corrected table: every accepted name gives the spline degree it names. |
| ExtraLabel.InterpolationOrderAgrees | data_utils/add_extra_cerebral_label.py:28-35 | The corrected table agrees with the one as written on every name but `linear`. |
| Components.MaxOf | data_utils/brain_extraction_antspynet.py:71 | The largest label present in a non-empty grid. |
| Components.Bincount | data_utils/brain_extraction_antspynet.py:71 | `np.bincount`: one bin per label up to the largest present (none for an empty grid). Bin `k` holds the number of voxels labelled `k`. |
| Components.ArgMax | data_utils/brain_extraction_antspynet.py:73 | The index of a maximal bin, and the first one among equals. |
| Components.Largest | data_utils/brain_extraction_antspynet.py:71-73 | The selection raises IndexError iff the grid is empty, because bin 0 then does not exist. |
| Components.LargestForeground | data_utils/brain_extraction_antspynet.py:70-74 | With any foreground voxel, the selected label is a foreground label that occurs. No foreground label occurs more often, and every smaller foreground label occurs strictly less often. |
| Components.LargestNoForeground | data_utils/brain_extraction_antspynet.py:70-74 | With no foreground, label 0 is selected and every voxel carries it, so the "component" is the whole grid. |
| Components.SelectLargest | data-utils/brain-extraction.py:50-54 | The histogram is built, bin 0 is set to 0 in place, and the first argmax is taken. The returned mask is true exactly at the voxels carrying the selected label. |
| Components.DilationGate | data-utils/brain-extraction.py:59-62 | Dilation runs only for a positive voxel count. Otherwise the closed mask passes through unchanged. |
| Components.Select | data_utils/brain_extraction_antspynet.py:74 | The selection has one entry per voxel, true exactly where the voxel carries the label. |
| Components.ComponentMask | data_utils/brain_extraction_antspynet.py:69-82 | The morphology branch's mask raises IndexError iff the labelled grid is empty. |
| Components.ComponentMaskForeground | data_utils/brain_extraction_antspynet.py:69-82 | With any foreground voxel, the mask is the closing of the voxels of a most frequent foreground label, the smallest among equals. That selection is not empty. The closed mask is dilated iff the dilation voxel count is positive. |
| Components.ComponentMaskNoForeground | data-utils/brain-extraction.py:49-62 | With no foreground, label 0 is selected, so the closing is applied to the whole grid before the dilation gate. |
| Components.MorphologyMask | data-utils/brain-extraction.py:106-119 | The per-file steps on the labelled array (select in place, close, dilate only for a positive count) compute exactly `ComponentMask`. |
| BrainMasks.FirstContaining | data_utils/brain_extraction_antspynet.py:44 | Returns None iff no input name contains the key. Otherwise returns the first listed name that does. |
| BrainMasks.PairNames | data-utils/brain-extraction.py:30-35 | An input name containing `.nii.gz` gives outputs ending `_masked.nii.gz` and `_mod.nii.gz`. Otherwise the outputs end `_masked.nii` and `_mod.nii`. |
| BrainMasks.MaskJobPairsFirstMatch | data_utils/brain_extraction_antspynet.py:43-48 | A mask's job reads the first listed input containing the mask name with every `mask` removed. No job means no input contains that key, or the first that does is empty. |
| BrainMasks.MaskJobsMembers | data_utils/brain_extraction_antspynet.py:40-46 | A job is planned iff some `.nii`/`.nii.gz` mask of the listing yields it. Other masks, and masks without a matching image, are skipped. |
| BrainMasks.PairMasks | data-utils/brain-extraction.py:18-38 | The mask-folder loop plans exactly those jobs, in mask-listing order. |
| BrainMasks.MaskSuffixFollowsInput | data-utils/brain-extraction.py:30-35 | A plain `.nii` mask paired with an input whose name contains `.nii.gz` gets a mask output ending `_mod.nii.gz`. |
| BrainMasks.MaskedName | data-utils/brain-extraction.py:83-86 | The output name ends `_masked.nii.gz` when the base name contains `.nii.gz`, and `_masked.nii` otherwise. |
| BrainMasks.MaskedNameNiiGz | data-utils/brain-extraction.py:83-84 | `stem.nii.gz` becomes `stem_masked.nii.gz`. |
| BrainMasks.MaskedNameNii | data-utils/brain-extraction.py:85-86 | `stem.nii` becomes `stem_masked.nii`. |
| BrainMasks.MaskedNameDropsInnerExtension | data-utils/brain-extraction.py:85-86 | The second `splitext` removes one more extension, so `stem.x.nii` is written as `stem_masked.nii`. |
| AntsPyNetExtraction.OutputName | data_utils/brain_extraction_antspynet.py:103-109 | With `rename` the masked image gets the stripped `_masked` name. Without it, it keeps its base name. |
| AntsPyNetExtraction.AutoJobForName | data_utils/brain_extraction_antspynet.py:98-160 | The masked image is always written. The mask `mask_<name>` is written iff morphology is not skipped, and is then `ComponentMask` with the run's dilation voxel count. With `skip_morpho` the image is masked by the threshold only. |
| AntsPyNetExtraction.AutoJobs | data_utils/brain_extraction_antspynet.py:98-99 | There is one job per `.nii`/`.nii.gz` file of the listing. |
| AntsPyNetExtraction.AutoJobsFiles | data_utils/brain_extraction_antspynet.py:98-114 | The k-th job is the job of the k-th NIfTI file of the listing. |
| AntsPyNetExtraction.BrainExtraction | data_utils/brain_extraction_antspynet.py:31-160 | A given, non-empty mask folder selects mask-folder mode, whose masks all become `ComponentMask` with the given dilation voxel count. Otherwise every NIfTI file of the input folder is planned in listing order. |
| BrainExtractionScript.AutoJobForName | data-utils/brain-extraction.py:78-130 | The mask `mask_<name>` is always written. With `skip_morpho` it is the raw network mask; otherwise it is `ComponentMask` with the run's dilation voxel count. The masked image is written under the `_masked` name iff morphology is not skipped. |
| BrainExtractionScript.AutoJobs | data-utils/brain-extraction.py:78-79 | There is one job per `.nii`/`.nii.gz` file of the listing. |
| BrainExtractionScript.AutoJobsFiles | data-utils/brain-extraction.py:78-90 | The k-th job is the job of the k-th NIfTI file of the listing. |
| BrainExtractionScript.BrainExtraction | data-utils/brain-extraction.py:10-130 | A given, non-empty mask folder selects mask-folder mode, whose masks all become `ComponentMask` with the given dilation voxel count. Otherwise every NIfTI file of the input folder is planned in listing order. |
| RenameJson.SubIdOfBase | data_utils/rename_files_nnunet_convention.py:7-16 | With both substrings absent or empty the id is the base. An absent start substring with a given end raises TypeError. A start substring that does not occur gives None. Without an end substring the id is a suffix of the base. Otherwise the id never contains the end substring. |
| RenameJson.SubIdOfBaseToEnd | data_utils/rename_files_nnunet_convention.py:9-16 | With a start substring that `find` locates (an empty one at 0) and no end substring, the id is the rest of the base after the first occurrence. |
| RenameJson.SubIdOfBaseToMarker | data_utils/rename_files_nnunet_convention.py:9-16 | With a located start substring and a non-empty end substring, the id runs from just after the first start occurrence to the first end occurrence after it. There is no id (None) when no end occurrence follows. |
| RenameJson.SubIdOfBaseStartOnly | data_utils/rename_files_nnunet_convention.py:9-16 | `("ab_sub01", "sub", None)` gives the id `"01"`. |
| RenameJson.SubIdOfBaseEmptyStart | data_utils/rename_files_nnunet_convention.py:9-16 | `("sub01_T1w", "", "_")` gives the id `"sub01"`. |
| RenameJson.ExtractSubId | data_utils/rename_files_nnunet_convention.py:5-8 | With neither substring given (or both empty), the id is the file name with up to two extensions removed. |
| RenameJson.SubIdAgreesWithCsv | data_utils/rename_files_nnunet_convention.py:9-16 | With both substrings given and non-empty, the id is the one the CSV script's `extract_sub_id` cuts out of the base. |
| RenameJson.ExtractSubIdOfStem | data_utils/rename_files_nnunet_convention.py:6 | For `<stem>.nii.gz` and `<stem>.nii` with a plain stem, the id is cut out of the stem. |
| RenameJson.RenamePlanError | data_utils/rename_files_nnunet_convention.py:30-36 | The loop raises iff the start substring is None, the end substring is truthy and some `.nii`/`.nii.gz` file is listed. |
| RenameJson.RenamePlanErrSticky | data_utils/rename_files_nnunet_convention.py:30-45 | Once the loop has raised, later files do not change the outcome. |
| RenameJson.RenamePlanExtends | data_utils/rename_files_nnunet_convention.py:37-41 | The entries read from JSON stay first and unchanged. Every added entry maps an old id to itself (label maps) or to itself plus `_0000`. |
| RenameJson.StepExtends | data_utils/rename_files_nnunet_convention.py:37-41 | One file keeps the correspondence, or appends one entry for an unknown old id. |
| RenameJson.StepMoves | data_utils/rename_files_nnunet_convention.py:31-45 | A file that is not NIfTI, or has no id, leaves the plan unchanged. A failing id extraction stops the run with its error. A file with an id is moved to `<new id>.nii.gz` in the output folder, where the new id is its entry in the correspondence afterwards. A known id leaves the correspondence unchanged. An unknown id is entered with itself, or itself plus `_0000`. |
| RenameJson.RenameFilesInSubfolder | data_utils/rename_files_nnunet_convention.py:18-45 | The loop, updating the correspondence in place, produces exactly the plan (or error) specified above. |
| RenameCsv.ExtractSubId | data_utils/rename_files_nnunet_covention.py:5-13 | A start substring that does not occur gives None. A non-empty end substring never occurs in the id. |
| RenameCsv.SubIdBetween | data_utils/rename_files_nnunet_covention.py:5-13 | For `pre + start + id + end + post`, where `start` first occurs after `pre` and `end` does not start inside `id`, the extracted id is `id`. |
| RenameCsv.SubIdSplits | data_utils/rename_files_nnunet_covention.py:6-13 | An extracted id sits right after the first occurrence of the start substring. It is followed by the first occurrence of the end substring at or after that point. |
| RenameCsv.RenamePlan | data_utils/rename_files_nnunet_covention.py:43-60 | The correspondence after the loop is the one read from the CSV file followed by exactly the appended rows. |
| RenameCsv.RowsAreFresh | data_utils/rename_files_nnunet_covention.py:48-55 | An id read from the CSV file keeps its new id. Appended rows have old ids not read before, new ids `image_<i>` of listing positions, and pairwise distinct old and new ids. |
| RenameCsv.RowsAssigned | data_utils/rename_files_nnunet_covention.py:51 | Every appended new id is `image_<i>` (plus `_0000` for images) for a position `i` of the listing. |
| RenameCsv.RowsDistinct | data_utils/rename_files_nnunet_covention.py:51-55 | The appended new ids are pairwise different. |
| RenameCsv.StepMoves | data_utils/rename_files_nnunet_covention.py:44-60 | A file is moved iff it has an id. It goes to `<new id>.nii.gz`, and a reused id keeps its earlier new id. |
| RenameCsv.RenameFilesInSubfolder | data_utils/rename_files_nnunet_covention.py:15-60 | The `enumerate` loop, updating the correspondence in place, produces exactly the correspondence, rows and moves specified above. |
| NnUnetNames.CaseIdInjective | data_utils/rename_files_nnunet_covention.py:51 | Two positions give the same case name iff they are equal. |
| NnUnetNames.CaseFileInjective | data_utils/rename_files_nnunet_covention.py:51-56 | A case name followed by an extension still determines the position. |
| ConformLabels.BeforeFirstDot | data_utils/conform_labels.py:29 | `split('.')[0]` contains no dot and stops at the first dot or at the end. |
| ConformLabels.FirstMatchSpec | data_utils/conform_labels.py:30-34 | The scan stops at an image whose id matches the label's and passes no earlier match. |
| ConformLabels.PairedImage | data_utils/conform_labels.py:30-34 | A label file has no image iff the scan runs off the end. |
| ConformLabels.PairedImageSome | data_utils/conform_labels.py:30-34 | A paired image is the first listed image whose id contains, or is contained in, the label file's id. |
| ConformLabels.PairedImageFirst | data_utils/conform_labels.py:30-34 | The first image with a matching id is the one paired. |
| ConformLabels.PairedImageNone | data_utils/conform_labels.py:30-34 | A label file gets no image iff no image id contains its id or is contained in it. |
| ConformLabels.MatchedPairs | data_utils/conform_labels.py:26-35 | There is at most one pair per label file. |
| ConformLabels.MatchedPairsMembers | data_utils/conform_labels.py:26-35 | A (label, image) pair is returned iff the label file is listed and the image is its paired image. Unmatched label files are dropped, and an image may serve several labels. |
| ConformLabels.MatchedPairsAppend | data_utils/conform_labels.py:28 | Pairs follow label-file order: two lists give the pairs of the first followed by those of the second. |
| ConformLabels.ScanImages | data_utils/conform_labels.py:30-34 | The inner loop with `break` stops at the first matching position. |
| ConformLabels.MatchSubjectIds | data_utils/conform_labels.py:26-35 | The nested loop returns exactly the matched pairs. |
| ConformLabels.ResamplingMethod | data_utils/conform_labels.py:49-54 | `nn` and `onehot_lin` select their resampling. Any other name raises ValueError. |
| ConformLabels.OutputPathKeepsSubject | data_utils/conform_labels.py:44-45 | The saved file's base name is the subject id plus `.nii.gz`, so it has the label file's subject id again. |
| ConformLabels.LabelJobsAt | data_utils/conform_labels.py:43-50 | The k-th job conforms the k-th pair's label map to its image, saving under the label's subject id. |
| ConformLabels.PairJobs | data_utils/conform_labels.py:43-54 | An invalid method raises ValueError iff at least one pair matched. Otherwise there is one job per pair. |
| ConformLabels.PairJobsAt | data_utils/conform_labels.py:43-54 | With a valid method, every pair's job uses that method. |
| ConformLabels.NiftiPaths | data_utils/conform_labels.py:39-40 | There is one path per `.nii`/`.nii.gz` name of the listing. |
| ConformLabels.NiftiPathsAt | data_utils/conform_labels.py:39-40 | The k-th path is the label folder joined with the k-th `.nii`/`.nii.gz` name of the listing, in listing order. |
| ConformLabels.ConformPairs | data_utils/conform_labels.py:43-54 | The loop over the matched pairs produces exactly those jobs, or the ValueError at the first pair. |
| ConformLabels.ConformLabelJobs | data_utils/conform_labels.py:37-54 | `main` filters both listings, pairs them and conforms pair by pair. |
| ConformImages.OutputDir | data-utils/conform_images.py:28-32 | A missing or empty output folder becomes `inputs-cfm` beside the input folder. |
| ConformImages.ConformPlan | data-utils/conform_images.py:38-46 | There is one conversion per kept name, and one rename row per conversion when renaming (none otherwise). |
| ConformImages.ConformPlanAt | data-utils/conform_images.py:38-46 | The k-th conversion reads the k-th kept name. Without rename it writes the same name. With rename it writes the new name of the k-th row, whose old name is the file's. |
| ConformImages.NewNamesNamed | data-utils/conform_images.py:38-42 | Every new name is `image_<idx>_0000.nii.gz` for a position `idx` of the sorted listing. |
| ConformImages.NewNamesDistinct | data-utils/conform_images.py:42-44 | The new names are pairwise distinct, so no two files are conformed onto one output. |
| ConformImages.FilterSorted | data-utils/conform_images.py:38-39 | The processed files of a sorted listing are themselves in sorted order. |
| ConformImages.ConformImagesPlan | data-utils/conform_images.py:26-46 | The loop over the sorted listing, for `.nii`/`.nii.gz` names, produces exactly that plan. |
| ConformImagesScript.CommandArguments | data-utils/conform-images.py:29-42 | Each value follows its flag. The order reads back as the same integer, and `--seg_input` is the thirteenth argument exactly for a label map. |
| ConformImagesScript.Commands | data-utils/conform-images.py:29-45 | There is one command per planned conversion. |
| ConformImagesScript.CommandsAt | data-utils/conform-images.py:29-45 | The k-th command converts the k-th planned file. |
| ConformImagesScript.ConformImagesPlan | data-utils/conform-images.py:7-46 | The loop over the sorted listing, for `.nii.gz` names only, produces the plan and one command per converted file. |
| Sorting.Sort | data-utils/conform_images.py:38 | `sorted` returns an ascending permutation of the listing. |
| Sorting.SortedUnique | data-utils/conform_images.py:38 | A sorted permutation of the listing is unique, so the positions are those of `sorted`. |
| Sorting.StrLeTotal | data-utils/conform-images.py:19 | Any two names are comparable. |
| Sorting.StrLeTransitive | data-utils/conform-images.py:19 | The name order is transitive. |
| Sorting.StrLeAntisymmetric | data-utils/conform-images.py:19 | Names that are each at most the other are equal. |
| Numbers.ParseFormat | data-utils/conform-images.py:36 | `int(str(order)) == order`. |
| Numbers.Pad4 | data-utils/conform-images.py:23 | `{idx:04d}` has only digits, reads back as `idx`, and is exactly four long below 10000. |
| Numbers.FormatNat | data-utils/conform-images.py:36 | `str(n)` has only digits, at least one, and reads back as `n`. |
| PyStr.Find | data_utils/rename_files_nnunet_covention.py:6-10 | `find` returns -1 iff there is no occurrence at or after `start`. Otherwise it returns the first occurrence. |
| PyStr.SplitSpells | data_utils/reorder_labels_freesurfer_lut.py:31-33 | The tokens of `split()` spell the line without its whitespace. There are no tokens iff the line is blank. |
| PyStr.SplitTokens | data-utils/reorder_labels_freesurfer_lut.py:13 | Every token of `split()` is non-empty and free of whitespace. |
| PyStr.ReplaceAbsent | data_utils/brain_extraction_antspynet.py:43 | `replace` of a pattern that does not occur returns the string unchanged. |
| PyStr.ReplaceKeepsSuffix | data_utils/add_extra_cerebral_label.py:49-53 | Replacing an unbordered pattern that a string ends with leaves a string ending with the replacement. |
| Paths.Basename | data_utils/reorder_labels_freesurfer_lut.py:78 | `basename` is a slash-free suffix of the path, preceded by a `/` when shorter. |
| Paths.BasenameJoin | data_utils/reorder_labels_freesurfer_lut.py:78 | The base name of `join(dir, name)` is `name` for a slash-free name. |
| Paths.Dirname | data-utils/conform_images.py:31 | `dirname` is a prefix of the path, and empty for a path without `/`. |
| Paths.Splitext | data-utils/brain-extraction.py:31-35 | `splitext` splits the path into two parts that concatenate back to it. The extension is empty or a single dot-led part without other dots or slashes. |
| Paths.StripTwoExtensionsNifti | data_utils/rename_files_nnunet_convention.py:6 | Two `splitext` calls turn `stem.nii.gz` and `stem.nii` into `stem`. |
| Paths.FilterNames | data-utils/reorder_labels_freesurfer_lut.py:82-83 | A name is kept iff it is listed and the filter accepts it. Never more names are kept than listed. |
| PyStr.FindFirst | data_utils/rename_files_nnunet_covention.py:10 | Given an occurrence at or after `start` with none before it, `find` returns that occurrence. |
| PyStr.FindEmpty | data_utils/rename_files_nnunet_convention.py:9 | `find` of the empty string from 0 returns 0. |
| PyStr.SplitEmpty | data_utils/reorder_labels_freesurfer_lut.py:31-33 | `split()` returns no token iff the line is blank, so every kept line has a first token. |
| PyStr.ReplaceOnlySuffix | data_utils/add_extra_cerebral_label.py:49-53 | When the final occurrence of the pattern is its only one, `replace` swaps just that ending. |
| Paths.BasenameRFind | data_utils/reorder_labels_freesurfer_lut.py:78 | `basename` is the slice after the last `/` that `rfind` finds, as in the POSIX implementation. |
| Paths.SplitextAppend | data-utils/brain-extraction.py:34-35 | `splitext` of a name with a stem and one dot-led extension returns exactly that stem and extension. |
| Paths.FolderOrDefault | data_utils/brain_extraction_antspynet.py:32-33 | Only a missing folder is replaced by the fallback, and an empty one is kept. Both brain-extraction scripts and both rename scripts use it for their output folder. |
| Paths.FolderIfGiven | data_utils/reorder_labels_freesurfer_lut.py:113-114 | A missing or empty folder is replaced by the fallback. The fallbacks are `<input>-freesurfer-labels` here, `<input>-fss-order` in data-utils/reorder_labels_freesurfer_lut.py and `inputs-cfm` in data-utils/conform_images.py. |
| Dicts.IndexOf | data_utils/rename_files_nnunet_convention.py:37 | The position of the key, or -1 iff it is absent. No earlier entry has the key. |
| Dicts.Get | data_utils/rename_files_nnunet_convention.py:37-38 | A lookup finds a value iff the key is present, and it finds the value stored with the key. |
| Dicts.Put | data_utils/reorder_labels_freesurfer_lut.py:36 | Assignment stores the value and changes no other key. An existing key keeps its position; a new key is appended. |

## Left out

- **File and volume I/O.** This includes `os.listdir`, `os.rename`,
  `makedirs`, `os.path.exists` and `isdir`, CSV/JSON reading and writing,
  and nibabel/ANTs load and save.
  - Listings, table lines and correspondences are inputs. Writes and moves
    are outputs.
  - The CSV script's reading of an existing `file_correspondence.csv`
    (header skip, later duplicate row wins) is not modelled. The model starts
    from the correspondence already read.
  - The CSV file's location (`abspath` of the parent directory) is not
    modelled.
- **Floating point.** This covers `np.round` (half to even) and the `int32`
  casts, the `> 0.01` threshold on the network output, `image * mask`, all
  resampling (`resample_from_to`, `resample_onehot` and its channel argmax)
  and FastSurfer's `conform`.
  - Label grids are taken as integers after rounding.
  - The 32-bit range of `int32` is not modelled.
  - The threshold step appears only as the `Threshold` mask kind.
- **Library calls.** This covers connected-component labelling
  (`scipy.ndimage.label`), `binary_closing`, `binary_dilation`,
  `binary_fill_holes`, `ball` and `antspynet.brain_extraction`.
  - Labelled grids are inputs. The closing with `ball(5)` and the
    dilation with `ball(n)` are function parameters of
    `Components.ComponentMask`. The plans record each job's mask kind and
    the dilation voxel count, not the voxels.
- **Subprocess execution.** `subprocess.run` in
  data-utils/conform-images.py is not executed. The model builds each
  command line.
- **Files with no data-preparation logic.** data_utils/conform_images.py,
  the inference scripts and the trainer are not part of this model. They
  only build command lists or configure training.
- **Glue in `main`.**
  - `argparse` parsing and the printed messages are not modelled.
  - The `main` of data_utils/add_extra_cerebral_label.py is not modelled.
    That covers its file lookups, which raise FileNotFoundError, its
    resampling choice, and the use of `new_labelmap_name` and
    `input_masked_path` where they are not defined.
  - The `choices=['nn', 'onehot_lin']` of data_utils/conform_labels.py is
    not modelled. That ValueError is therefore reachable here, though only
    through a direct call of `main` in the source.
- **Characters.**
  - Python's `str.split()` and `strip()` treat all Unicode whitespace as
    separators. `PyStr.IsSpace` covers the ASCII and Latin-1 whitespace
    characters only.
  - `int()` accepts an optional sign and ASCII digits. Underscores and
    non-ASCII digits are not modelled.
- FreeSurferLut.ParseEntry: it has no contract of its own. What a kept line
  contributes is stated through `FreeSurferLut.TableLookup` and
  `FreeSurferLut.TableError`.

## Findings

| source | as written | input that shows it | evidently intended | confidence | as-written member | corrected member |
|---|---|---|---|---|---|---|
| data_utils/add_extra_cerebral_label.py:32-33 | `interpolation == 'linear'` sets spline order 2 (quadratic) | `resample_to_target(src, tgt, interpolation='linear')` resamples with order 2 | order 1, as for every other name in the table, which gives the degree it names | medium, not executed | ExtraLabel.LinearIsQuadratic | ExtraLabel.InterpolationOrderFixed |
