/** The nnU-Net case names the renaming scripts assign: `image_` followed by
    a position written with at least four digits, and `_0000` (the channel
    of the only input modality) for images but not for label maps. */
module NnUnetNames {
  import opened Numbers

  /** `f"image_{i:04d}"`, with `_0000` appended unless it names a label map. */
  function CaseId(i: nat, labelMap: bool): string {
    "image_" + Pad4(i) + (if labelMap then "" else "_0000")
  }

  /** Different positions give different case names, and the same position
      the same one: the name determines the position. */
  lemma CaseIdInjective(i: nat, j: nat, labelMap: bool)
    ensures CaseId(i, labelMap) == CaseId(j, labelMap) <==> i == j
  {
    if CaseId(i, labelMap) == CaseId(j, labelMap) {
      var a := CaseId(i, labelMap);
      assert |Pad4(i)| == |Pad4(j)|;
      assert Pad4(i) == a[6..6 + |Pad4(i)|];
      assert Pad4(j) == a[6..6 + |Pad4(j)|];
    }
  }

  /** A case name followed by an extension still determines the position. */
  lemma CaseFileInjective(i: nat, j: nat, labelMap: bool, ext: string)
    ensures CaseId(i, labelMap) + ext == CaseId(j, labelMap) + ext <==> i == j
  {
    if CaseId(i, labelMap) + ext == CaseId(j, labelMap) + ext {
      var a := CaseId(i, labelMap) + ext;
      assert CaseId(i, labelMap) == a[..|a| - |ext|] == CaseId(j, labelMap);
    }
    CaseIdInjective(i, j, labelMap);
  }
}
