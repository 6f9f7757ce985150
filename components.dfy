/** Largest-component selection, identical in both brain-extraction scripts
    (data_utils/brain_extraction_antspynet.py and
    data-utils/brain-extraction.py): given a grid already labelled into
    connected components (0 is background), count the voxels of each label,
    ignore the background count, take the first label of maximal count and
    keep the voxels carrying it. The labelling itself and the morphology are
    library calls and come in as inputs. */
module Components {
  import opened Wrappers

  /** The largest label of a non-empty grid. */
  function MaxOf(s: seq<nat>): (m: nat)
    requires s != []
    ensures forall i :: 0 <= i < |s| ==> s[i] <= m
    ensures m in s
  {
    if |s| == 1 then s[0]
    else
      var m := MaxOf(s[..|s| - 1]);
      assert forall i :: 0 <= i < |s| - 1 ==> s[..|s| - 1][i] == s[i];
      if s[|s| - 1] > m then s[|s| - 1] else m
  }

  /** `np.bincount`: one bin per label from 0 to the largest label present
      (none for an empty grid), each holding how many voxels carry it. */
  function Bincount(labels: seq<nat>): (bins: seq<nat>)
    ensures |bins| == if labels == [] then 0 else MaxOf(labels) + 1
    ensures forall k :: 0 <= k < |bins| ==> bins[k] == multiset(labels)[k]
  {
    if labels == [] then []
    else
      var init := labels[..|labels| - 1];
      var x := labels[|labels| - 1];
      assert labels == init + [x];
      var b := Bincount(init);
      var ext: seq<nat> := if x < |b| then b else b + seq(x + 1 - |b|, _ => 0);
      assert forall k :: |b| <= k ==> multiset(init)[k] == 0 by {
        forall k | |b| <= k ensures multiset(init)[k] == 0 {
          if init != [] {
            assert k !in init;
          }
        }
      }
      assert MaxOf(labels) + 1 == |ext| by {
        if init != [] {
          assert forall i :: 0 <= i < |init| ==> labels[..|labels| - 1][i] == init[i];
        }
      }
      ext[x := ext[x] + 1]
  }

  /** `argmax`: the index of the largest bin, the first one among equals. */
  function ArgMax(s: seq<nat>): (r: nat)
    requires s != []
    ensures r < |s|
    ensures forall j :: 0 <= j < |s| ==> s[j] <= s[r]
    ensures forall j :: 0 <= j < r ==> s[j] < s[r]
  {
    if |s| == 1 then 0
    else
      var init := s[..|s| - 1];
      var r := ArgMax(init);
      assert forall j :: 0 <= j < |s| - 1 ==> init[j] == s[j];
      if s[|s| - 1] > s[r] then |s| - 1 else r
  }

  /** The label selected as the largest component: the first argmax of the
      histogram whose background bin has been set to 0. An empty grid has an
      empty histogram, and setting its bin 0 raises IndexError. */
  function Largest(labels: seq<nat>): (r: Result<nat>)
    ensures r.Err? <==> labels == []
    ensures r.Err? ==> r.error.IndexError?
  {
    var sizes := Bincount(labels);
    if |sizes| == 0 then Err(IndexError("index 0 is out of bounds for axis 0 with size 0"))
    else Ok(ArgMax(sizes[0 := 0]))
  }

  /** With at least one foreground voxel the selected label is a foreground
      label that occurs, no foreground label occurs more often, and every
      smaller foreground label occurs strictly less often. */
  lemma LargestForeground(labels: seq<nat>, v: nat)
    requires v < |labels| && labels[v] != 0
    ensures Largest(labels).Ok?
    ensures var lab := Largest(labels).value;
            && lab != 0
            && multiset(labels)[lab] > 0
            && (forall k: nat :: k != 0 ==> multiset(labels)[k] <= multiset(labels)[lab])
            && (forall k: nat :: 0 < k < lab ==> multiset(labels)[k] < multiset(labels)[lab])
  {
    var bins := Bincount(labels);
    var sizes := bins[0 := 0];
    var lab := ArgMax(sizes);
    var x := labels[v];
    assert x <= MaxOf(labels);
    assert x in multiset(labels);
    assert sizes[x] == multiset(labels)[x] > 0;
    assert sizes[lab] > 0;
    forall k: nat | k != 0 ensures multiset(labels)[k] <= multiset(labels)[lab] {
      if k >= |bins| {
        assert k !in multiset(labels);
      } else {
        assert sizes[k] <= sizes[lab];
      }
    }
    forall k: nat | 0 < k < lab ensures multiset(labels)[k] < multiset(labels)[lab] {
      assert sizes[k] < sizes[lab];
    }
  }

  /** A grid with no foreground selects label 0, and since every voxel is 0
      the "component" is the whole grid. */
  lemma LargestNoForeground(labels: seq<nat>)
    requires labels != []
    requires forall v :: 0 <= v < |labels| ==> labels[v] == 0
    ensures Largest(labels) == Ok(0)
    ensures forall v :: 0 <= v < |labels| ==> labels[v] == Largest(labels).value
  {
    assert labels[0] == 0;
    assert MaxOf(labels) in labels;
    assert |Bincount(labels)| == 1;
  }

  /** The selection step of the per-file loop: build the histogram, zero its
      background bin in place, take the first argmax and compare every voxel
      with it. The labelled grid is left as it was. */
  method SelectLargest(labeledMask: array<nat>) returns (r: Result<(nat, array<bool>)>)
    ensures r.Err? <==> Largest(labeledMask[..]).Err?
    ensures r.Err? ==> r.error == Largest(labeledMask[..]).error
    ensures r.Ok? ==>
              && fresh(r.value.1)
              && r.value.0 == Largest(labeledMask[..]).value
              && r.value.1.Length == labeledMask.Length
              && forall v :: 0 <= v < labeledMask.Length ==> (r.value.1[v] <==> labeledMask[v] == r.value.0)
  {
    var bins := Bincount(labeledMask[..]);
    if |bins| == 0 {
      return Err(IndexError("index 0 is out of bounds for axis 0 with size 0"));
    }
    var sizes := new nat[|bins|](k requires 0 <= k < |bins| => bins[k]);
    sizes[0] := 0;
    assert sizes[..] == bins[0 := 0];
    var largestLabel := ArgMax(sizes[..]);
    var component := new bool[labeledMask.Length](v reads labeledMask requires 0 <= v < labeledMask.Length => labeledMask[v] == largestLabel);
    return Ok((largestLabel, component));
  }

  /** The dilation gate: dilate the closed mask only when the voxel count is
      positive; zero or a negative count passes it through. */
  function DilationGate<T>(closedMask: T, dilationVoxels: int, dilate: (T, int) -> T): (r: T)
    ensures dilationVoxels <= 0 ==> r == closedMask
    ensures dilationVoxels > 0 ==> r == dilate(closedMask, dilationVoxels)
  {
    if dilationVoxels > 0 then dilate(closedMask, dilationVoxels) else closedMask
  }

  /** `labeled_mask == largest_label`: the voxels carrying label `lab`. */
  function Select(labels: seq<nat>, lab: nat): (m: seq<bool>)
    ensures |m| == |labels|
    ensures forall v :: 0 <= v < |labels| ==> (m[v] <==> labels[v] == lab)
  {
    seq(|labels|, v requires 0 <= v < |labels| => labels[v] == lab)
  }

  /** The mask the morphology branch multiplies the image with and writes:
      the largest component of the labelled grid, closed by `close` (the
      closing with a ball of radius 5) and passed through the dilation gate
      with `dilate` (the dilation with a ball of the given radius). */
  function ComponentMask(labels: seq<nat>, close: seq<bool> -> seq<bool>,
                         dilate: (seq<bool>, int) -> seq<bool>, dilationVoxels: int): (r: Result<seq<bool>>)
    ensures r.Err? <==> labels == []
    ensures r.Err? ==> r.error.IndexError?
  {
    match Largest(labels)
    case Err(e) => Err(e)
    case Ok(lab) => Ok(DilationGate(close(Select(labels, lab)), dilationVoxels, dilate))
  }

  /** With foreground, the written mask is the closing of the voxels of one
      foreground label that occurs as often as any other (the smallest such
      label), dilated exactly when the voxel count is positive. */
  lemma ComponentMaskForeground(labels: seq<nat>, close: seq<bool> -> seq<bool>,
                                dilate: (seq<bool>, int) -> seq<bool>, dilationVoxels: int, v: nat)
    requires v < |labels| && labels[v] != 0
    ensures Largest(labels).Ok?
    ensures var lab := Largest(labels).value;
            var selected := Select(labels, lab);
            && lab != 0
            && (forall k: nat :: k != 0 ==> multiset(labels)[k] <= multiset(labels)[lab])
            && (forall k: nat :: 0 < k < lab ==> multiset(labels)[k] < multiset(labels)[lab])
            && (exists u :: 0 <= u < |labels| && selected[u])
            && (dilationVoxels <= 0 ==> ComponentMask(labels, close, dilate, dilationVoxels) == Ok(close(selected)))
            && (dilationVoxels > 0 ==> ComponentMask(labels, close, dilate, dilationVoxels) == Ok(dilate(close(selected), dilationVoxels)))
  {
    LargestForeground(labels, v);
    var lab := Largest(labels).value;
    assert lab in multiset(labels);
    var u :| 0 <= u < |labels| && labels[u] == lab;
    assert Select(labels, lab)[u];
  }

  /** Without foreground (every voxel 0), label 0 is selected, so the
      closing is applied to the whole grid. */
  lemma ComponentMaskNoForeground(labels: seq<nat>, close: seq<bool> -> seq<bool>,
                                  dilate: (seq<bool>, int) -> seq<bool>, dilationVoxels: int)
    requires labels != []
    requires forall v :: 0 <= v < |labels| ==> labels[v] == 0
    ensures ComponentMask(labels, close, dilate, dilationVoxels)
              == Ok(DilationGate(close(seq(|labels|, _ => true)), dilationVoxels, dilate))
  {
    LargestNoForeground(labels);
    assert Select(labels, 0) == seq(|labels|, _ => true);
  }

  /** The morphology step of the per-file loop on the labelled array: select
      the largest component in place, close it, and dilate it only for a
      positive voxel count. */
  method MorphologyMask(labeledMask: array<nat>, close: seq<bool> -> seq<bool>,
                        dilate: (seq<bool>, int) -> seq<bool>, dilationVoxels: int)
    returns (r: Result<seq<bool>>)
    ensures r == ComponentMask(labeledMask[..], close, dilate, dilationVoxels)
  {
    var selection := SelectLargest(labeledMask);
    if selection.Err? {
      return Err(selection.error);
    }
    var largestComponentMask := selection.value.1;
    assert largestComponentMask[..] == Select(labeledMask[..], selection.value.0);
    var closedMask := close(largestComponentMask[..]);
    var dilatedMask := closedMask;
    if dilationVoxels > 0 {
      dilatedMask := dilate(closedMask, dilationVoxels);
    }
    return Ok(dilatedMask);
  }
}
