/** The per-voxel label rewrite shared by both label-reordering scripts: the
    rounded label grid is copied, and for every (old, new) pair of the
    correspondence, in dictionary order, the voxels whose ROUNDED ORIGINAL
    label is `old` are set to `new`. Grids are flattened to one dimension;
    every step is voxel-wise, so the layout does not matter. */
module LabelRemap {
  import opened Wrappers
  import opened Dicts
  import opened Paths

  /** `mapping.get(lab, lab)`: the new label of a voxel. */
  function Relabel(mapping: Dict<int, int>, lab: int): int {
    match Get(mapping, lab)
    case Some(y) => y
    case None => lab
  }

  /** The value a voxel with original label `x` holds after the pairs of
      `pairs` have been applied one after another, each one checked against
      the original label. */
  function Applied(pairs: seq<(int, int)>, x: int): int {
    if pairs == [] then x
    else if pairs[|pairs| - 1].0 == x then pairs[|pairs| - 1].1
    else Applied(pairs[..|pairs| - 1], x)
  }

  /** With distinct keys, applying the pairs in sequence gives the label the
      pair for `x` names, and leaves `x` alone when no pair names it. */
  lemma {:induction false} AppliedIsLookup(pairs: seq<(int, int)>, x: int)
    requires DistinctKeys(pairs)
    ensures forall y :: (x, y) in pairs ==> Applied(pairs, x) == y
    ensures (forall y :: (x, y) !in pairs) ==> Applied(pairs, x) == x
  {
    if pairs != [] {
      var init := pairs[..|pairs| - 1];
      var last := pairs[|pairs| - 1];
      assert forall p :: p in pairs <==> p in init || p == last;
      AppliedIsLookup(init, x);
    }
  }

  /** Order independence: applying the same pairs in any order gives the same
      label, because each test reads the original label. */
  lemma AppliedOrderIndependent(p1: seq<(int, int)>, p2: seq<(int, int)>, x: int)
    requires DistinctKeys(p1) && DistinctKeys(p2)
    requires multiset(p1) == multiset(p2)
    ensures Applied(p1, x) == Applied(p2, x)
  {
    AppliedIsLookup(p1, x);
    AppliedIsLookup(p2, x);
    assert forall p :: p in p1 <==> p in p2 by {
      forall p ensures p in p1 <==> p in p2 {
        assert p in p1 <==> p in multiset(p1);
        assert p in p2 <==> p in multiset(p2);
      }
    }
  }

  /** Applying the whole dictionary pair by pair is `mapping.get(x, x)`. */
  lemma AppliedIsRelabel(mapping: Dict<int, int>, x: int)
    ensures Applied(mapping, x) == Relabel(mapping, x)
  {
    AppliedIsLookup(mapping, x);
  }

  /** The remap loop of `process_label_map`: copy the rounded grid, then, for
      each pair in dictionary order, overwrite the voxels whose rounded
      original label equals the pair's old label. Every voxel ends as
      `mapping.get(orig, orig)`; the input grid is left as it was. */
  method RemapLabels(rounded: array<int>, mapping: Dict<int, int>) returns (remapped: array<int>)
    ensures fresh(remapped)
    ensures remapped.Length == rounded.Length
    ensures forall v :: 0 <= v < rounded.Length ==> remapped[v] == Relabel(mapping, rounded[v])
  {
    remapped := new int[rounded.Length](v reads rounded requires 0 <= v < rounded.Length => rounded[v]);
    var k := 0;
    while k < |mapping|
      invariant 0 <= k <= |mapping|
      invariant forall v :: 0 <= v < rounded.Length ==> remapped[v] == Applied(mapping[..k], rounded[v])
    {
      var (oldLabel, newLabel) := mapping[k];
      forall v | 0 <= v < rounded.Length && rounded[v] == oldLabel {
        remapped[v] := newLabel;
      }
      assert mapping[..k + 1][..k] == mapping[..k];
      k := k + 1;
    }
    assert mapping[..k] == mapping;
    forall v | 0 <= v < rounded.Length ensures remapped[v] == Relabel(mapping, rounded[v]) {
      AppliedIsRelabel(mapping, rounded[v]);
    }
  }

  /** A label that is a key of the correspondence becomes its partner; any
      other label passes through unchanged. */
  lemma RelabelSpec(mapping: Dict<int, int>, x: int)
    ensures HasKey(mapping, x) ==> (x, Relabel(mapping, x)) in mapping
    ensures !HasKey(mapping, x) ==> Relabel(mapping, x) == x
  {
  }

  /** Remapping never chains: with {1 -> 2, 2 -> 3} a voxel labelled 1 ends
      at 2, not 3, and one labelled 2 ends at 3. */
  lemma NoChaining()
    ensures Relabel([(1, 2), (2, 3)], 1) == 2
    ensures Relabel([(1, 2), (2, 3)], 2) == 3
    ensures Relabel([(1, 2), (2, 3)], 0) == 0
  {
    assert (1, 2) in [(1, 2), (2, 3)];
    assert (2, 3) in [(1, 2), (2, 3)];
  }

  /** The (input path, output path) pairs of the label maps a directory run
      processes: each file is read from the input directory and written under
      the same base name in the output directory. */
  function Jobs(inputDir: string, outputDir: string, files: seq<string>): (jobs: seq<(string, string)>)
    ensures |jobs| == |files|
    ensures forall k :: 0 <= k < |files| ==> jobs[k] == (Join(inputDir, files[k]), Join(outputDir, files[k]))
  {
    if files == [] then []
    else Jobs(inputDir, outputDir, files[..|files| - 1]) + [(Join(inputDir, files[|files| - 1]), Join(outputDir, files[|files| - 1]))]
  }
}
