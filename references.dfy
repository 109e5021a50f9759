/** The reference codec (make_reference, _make_label_to_reference, the
    reference_to_label_ dictionary and reference_to_label): a format becomes a
    tuple giving, per position, the first index holding the same symbol; the
    inverse dictionary maps such tuples back to labels. Position 0 of a tuple
    is a placeholder that lookups overwrite with 0 first. */
module References {
  import opened Seqs
  import opened Formats
  import opened Labels

  type Reference = seq<int>

  /** make_reference as a value. */
  function ReferenceOf(format: Format): (r: Reference)
    ensures |r| == |format|
    ensures |format| > 0 ==> r[0] == 0
    ensures forall i :: 0 <= i < |format| ==> 0 <= r[i] <= i && format[r[i]] == format[i]
    ensures forall i, j :: 0 <= i < |format| && 0 <= j < r[i] ==> format[j] != format[i]
    ensures forall i :: 0 <= i < |format| ==> r[r[i]] == r[i]
  {
    seq(|format|, i requires 0 <= i < |format| => IndexOf(format, format[i]))
  }

  /** The loop of make_reference: a dictionary records, for every symbol of
      the format, the first index holding it; the tuple then reads that index
      at every position. */
  method FirstIndices(format: Format) returns (ref: Reference)
    ensures ref == ReferenceOf(format)
  {
    var reference: map<nat, nat> := map[];
    for i := 0 to |format|
      invariant forall j :: 0 <= j < i ==> format[j] in reference
      invariant forall s :: s in reference ==> s in format && reference[s] == IndexOf(format, s)
    {
      if format[i] !in reference {
        IndexOfFirst(format, i);
        reference := reference[format[i] := i];
      }
    }
    ref := seq(|format|, i requires 0 <= i < |format| => reference[format[i]]);
  }

  /** The tuple with position 0 replaced by x (what `[x] + list(reference[1:])`
      builds; an empty tuple becomes the one-entry tuple (x,)). */
  function ReplaceFirst(reference: Reference, x: int): (r: Reference)
    ensures |r| == if |reference| == 0 then 1 else |reference|
    ensures r[0] == x
    ensures forall i :: 1 <= i < |reference| ==> r[i] == reference[i]
  {
    [x] + if |reference| == 0 then [] else reference[1..]
  }

  /** _make_label_to_reference: every label of label_to_format mapped to the
      reference of its format. */
  function MakeLabelToReference(labelToFormat: map<nat, Format>): (m: map<nat, Reference>)
    ensures m.Keys == labelToFormat.Keys
  {
    map l | l in labelToFormat :: ReferenceOf(labelToFormat[l])
  }

  /** label_to_reference of a corpus. */
  function LabelToReferenceOf(trajs: seq<Trajectory>): map<nat, Reference> {
    MakeLabelToReference(LabelToFormatOf(trajs))
  }

  /** reference_to_label_ of a corpus: label_to_reference inverted, its
      labels 0 .. k - 1 visited in order. */
  function ReferenceToLabelOf(trajs: seq<Trajectory>): map<Reference, nat> {
    var ltr := LabelToReferenceOf(trajs);
    ListMapCard(LabelOrder(trajs));
    ReferenceToLabelMap(ltr, |ltr|)
  }

  /** The dictionary comprehension reference_to_label_: every entry
      label -> reference of labels 0 .. n - 1, inserted in label order, becomes
      reference -> label; a later label would overwrite an earlier one with
      the same reference. */
  function ReferenceToLabelMap(labelToReference: map<nat, Reference>, n: nat): (inv: map<Reference, nat>)
    requires forall l :: 0 <= l < n ==> l in labelToReference
    ensures forall l :: 0 <= l < n ==> labelToReference[l] in inv
    ensures forall r :: r in inv ==> inv[r] < n && labelToReference[inv[r]] == r
  {
    if n == 0 then map[]
    else ReferenceToLabelMap(labelToReference, n - 1)[labelToReference[n - 1] := n - 1]
  }

  /** The reference of a trajectory's format gives, at each position, the
      first index of the trajectory holding the same location. */
  lemma ReferenceOfTrajectory(traj: Trajectory, i: nat)
    requires i < |traj|
    ensures ReferenceOf(FormatOf(traj))[i] == IndexOf(traj, traj[i])
  {
    var f := FormatOf(traj);
    var r := ReferenceOf(f)[i];
    var j := IndexOf(traj, traj[i]);
    FormatSame(traj, i, j);
    FormatSame(traj, i, r);
  }

  /** Two trajectories have the same reference exactly when they have the
      same format: the reference loses nothing of the format. */
  lemma ReferenceDeterminesFormat(t1: Trajectory, t2: Trajectory)
    ensures ReferenceOf(FormatOf(t1)) == ReferenceOf(FormatOf(t2)) <==> FormatOf(t1) == FormatOf(t2)
  {
    if ReferenceOf(FormatOf(t1)) == ReferenceOf(FormatOf(t2)) {
      forall i, j | 0 <= i < |t1| && 0 <= j < |t1|
        ensures t1[i] == t1[j] <==> t2[i] == t2[j]
      {
        ReferenceOfTrajectory(t1, i);
        ReferenceOfTrajectory(t1, j);
        ReferenceOfTrajectory(t2, i);
        ReferenceOfTrajectory(t2, j);
      }
      FormatEqualIff(t1, t2);
    }
  }

  /** Distinct labels have distinct references, so the comprehension that
      inverts label_to_reference loses no entry. */
  lemma LabelToReferenceInjective(trajs: seq<Trajectory>, l1: nat, l2: nat)
    requires l1 in LabelToFormatOf(trajs) && l2 in LabelToFormatOf(trajs)
    requires LabelToReferenceOf(trajs)[l1] == LabelToReferenceOf(trajs)[l2]
    ensures l1 == l2
  {
    var fs := FormatsOf(trajs);
    var order := LabelOrder(trajs);
    DistinctMembers(fs, order[l1]);
    DistinctMembers(fs, order[l2]);
    var i1 :| 0 <= i1 < |fs| && fs[i1] == order[l1];
    var i2 :| 0 <= i2 < |fs| && fs[i2] == order[l2];
    assert fs[i1] == FormatOf(trajs[i1]);
    assert fs[i2] == FormatOf(trajs[i2]);
    ReferenceDeterminesFormat(trajs[i1], trajs[i2]);
  }

  /** Over labels whose references are pairwise distinct, the inverted
      dictionary sends each label's reference back to that label. */
  lemma ReferenceToLabelMapRoundTrip(labelToReference: map<nat, Reference>, n: nat, l: nat)
    requires forall k :: 0 <= k < n ==> k in labelToReference
    requires forall a, b :: 0 <= a < n && 0 <= b < n && labelToReference[a] == labelToReference[b] ==> a == b
    requires l < n
    ensures ReferenceToLabelMap(labelToReference, n)[labelToReference[l]] == l
  {
  }

  /** label_to_reference has the labels 0 .. k - 1 as keys, and
      reference_to_label_ is its exact inverse: no label is lost to a clash of
      references, and every key of reference_to_label_ is some label's
      reference. */
  lemma ReferenceTablesInverse(trajs: seq<Trajectory>)
    ensures forall l :: l in LabelToReferenceOf(trajs) <==> 0 <= l < |LabelOrder(trajs)|
    ensures |LabelToReferenceOf(trajs)| == |LabelOrder(trajs)|
    ensures Inverse(LabelToReferenceOf(trajs), ReferenceToLabelOf(trajs))
  {
    var ltr := LabelToReferenceOf(trajs);
    var inv := ReferenceToLabelOf(trajs);
    LabelToReferenceKeys(trajs);
    forall k | k in ltr
      ensures ltr[k] in inv && inv[ltr[k]] == k
    {
      LabelToReferenceInjective(trajs, inv[ltr[k]], k);
    }
  }

  /** label_to_reference has exactly the labels 0 .. k - 1 as keys. */
  lemma LabelToReferenceKeys(trajs: seq<Trajectory>)
    ensures forall l :: l in LabelToReferenceOf(trajs) <==> 0 <= l < |LabelOrder(trajs)|
    ensures |LabelToReferenceOf(trajs)| == |LabelOrder(trajs)|
  {
    ListMapCard(LabelOrder(trajs));
    assert LabelToReferenceOf(trajs).Keys == LabelToFormatOf(trajs).Keys;
  }

  /** Replacing position 0 twice keeps only the second replacement. */
  lemma ReplaceFirstTwice(reference: Reference, x: int, y: int)
    ensures ReplaceFirst(ReplaceFirst(reference, x), y) == ReplaceFirst(reference, y)
  {
  }

  /** Replacing position 0 of a non-empty tuple by what it holds changes
      nothing. */
  lemma ReplaceFirstSame(reference: Reference)
    requires |reference| > 0
    ensures ReplaceFirst(reference, reference[0]) == reference
  {
  }
}
