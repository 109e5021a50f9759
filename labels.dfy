/** The label registry (make_format_to_label, make_label_to_format,
    make_label_info): one pass over the corpus gives every format not seen
    before the next integer label; the inverse dictionary is built from it.
    Abstractly the registry is the list of distinct formats in first-encounter
    order, and a format's label is its index in that list. */
module Labels {
  import opened Seqs
  import opened Formats

  /** The format of every trajectory of the corpus, in corpus order. */
  function FormatsOf(trajs: seq<Trajectory>): (fs: seq<Format>)
    ensures |fs| == |trajs|
  {
    seq(|trajs|, i requires 0 <= i < |trajs| => FormatOf(trajs[i]))
  }

  /** The distinct formats of the corpus in first-encounter order. */
  function LabelOrder(trajs: seq<Trajectory>): seq<Format> {
    Distinct(FormatsOf(trajs))
  }

  /** format_to_label as a value: each distinct format mapped to its index. */
  function FormatToLabelOf(trajs: seq<Trajectory>): map<Format, nat> {
    IndexMap(LabelOrder(trajs))
  }

  /** label_to_format as a value: each label mapped to the format at its index. */
  function LabelToFormatOf(trajs: seq<Trajectory>): map<nat, Format> {
    ListMap(LabelOrder(trajs))
  }

  /** The prefix of the corpus has the prefix of the format list. */
  lemma FormatsOfPrefix(trajs: seq<Trajectory>, k: nat)
    requires k <= |trajs|
    ensures FormatsOf(trajs[..k]) == FormatsOf(trajs)[..k]
  {
  }

  /** make_format_to_label: the loop over the corpus inserts each format not
      yet in the dictionary with the dictionary's current size as its label. */
  method MakeFormatToLabel(trajList: seq<Trajectory>) returns (formatToLabel: map<Format, nat>)
    ensures formatToLabel == FormatToLabelOf(trajList)
  {
    formatToLabel := map[];
    for k := 0 to |trajList|
      invariant formatToLabel == IndexMap(LabelOrder(trajList[..k]))
    {
      var trajType := TrajToFormat(trajList[k]);
      ghost var order := LabelOrder(trajList[..k]);
      LabelOrderStep(trajList, k);
      IndexMapOfNoDup(order);
      if trajType !in formatToLabel {
        IndexMapSnoc(order, trajType);
        formatToLabel := formatToLabel[trajType := |formatToLabel|];
      }
    }
    assert trajList[..|trajList|] == trajList;
  }

  /** One more trajectory adds its format to the order exactly when it is new. */
  lemma LabelOrderStep(trajs: seq<Trajectory>, k: nat)
    requires k < |trajs|
    ensures FormatOf(trajs[k]) in LabelOrder(trajs[..k]) ==> LabelOrder(trajs[..k + 1]) == LabelOrder(trajs[..k])
    ensures FormatOf(trajs[k]) !in LabelOrder(trajs[..k]) ==> LabelOrder(trajs[..k + 1]) == LabelOrder(trajs[..k]) + [FormatOf(trajs[k])]
  {
    var fs := FormatsOf(trajs);
    FormatsOfPrefix(trajs, k);
    FormatsOfPrefix(trajs, k + 1);
    DistinctSnoc(fs, k);
    DistinctMembers(fs[..k], fs[k]);
  }

  /** make_label_to_format: every entry format -> label of the dictionary is
      inserted as label -> format. The source visits the keys in insertion
      order; here the order is left open, and the result never depends on it:
      every label of the input becomes a key, and each key maps back to a
      format carrying that label. */
  method MakeLabelToFormat(formatToLabel: map<Format, nat>) returns (labelToFormat: map<nat, Format>)
    ensures labelToFormat.Keys == formatToLabel.Values
    ensures forall l :: l in labelToFormat ==> labelToFormat[l] in formatToLabel && formatToLabel[labelToFormat[l]] == l
    ensures Injective(formatToLabel) ==> Inverse(formatToLabel, labelToFormat)
  {
    labelToFormat := map[];
    var rest := formatToLabel.Keys;
    while rest != {}
      invariant rest <= formatToLabel.Keys
      invariant forall f :: f in formatToLabel && f !in rest ==> formatToLabel[f] in labelToFormat
      invariant forall l :: l in labelToFormat ==> labelToFormat[l] in formatToLabel && labelToFormat[l] !in rest && formatToLabel[labelToFormat[l]] == l
      decreases rest
    {
      var format :| format in rest;
      labelToFormat := labelToFormat[formatToLabel[format] := format];
      rest := rest - {format};
    }
  }

  /** make_label_info: both dictionaries of the registry. */
  method MakeLabelInfo(realTraj: seq<Trajectory>) returns (formatToLabel: map<Format, nat>, labelToFormat: map<nat, Format>)
    ensures formatToLabel == FormatToLabelOf(realTraj)
    ensures labelToFormat == LabelToFormatOf(realTraj)
  {
    formatToLabel := MakeFormatToLabel(realTraj);
    labelToFormat := MakeLabelToFormat(formatToLabel);
    ListMapUnique(LabelOrder(realTraj), labelToFormat);
  }

  /** The registry holds the corpus's distinct formats under labels
      0 .. k - 1, every trajectory's format is a key, and the two
      dictionaries invert each other, so label -> format -> label and
      format -> label -> format are identities. */
  lemma RegistryRoundTrip(trajs: seq<Trajectory>)
    ensures forall i :: 0 <= i < |trajs| ==> FormatOf(trajs[i]) in FormatToLabelOf(trajs)
    ensures forall l :: l in LabelToFormatOf(trajs) <==> 0 <= l < |LabelOrder(trajs)|
    ensures Inverse(FormatToLabelOf(trajs), LabelToFormatOf(trajs))
  {
    var fs := FormatsOf(trajs);
    IndexListInverse(LabelOrder(trajs));
    forall i | 0 <= i < |trajs|
      ensures FormatOf(trajs[i]) in FormatToLabelOf(trajs)
    {
      assert fs[i] == FormatOf(trajs[i]);
      DistinctMembers(fs, fs[i]);
    }
  }

  /** There are as many labels as distinct formats in the corpus. */
  lemma LabelCount(trajs: seq<Trajectory>)
    ensures |FormatToLabelOf(trajs)| == |LabelOrder(trajs)| == |set f | f in FormatsOf(trajs)|
  {
    IndexMapOfNoDup(LabelOrder(trajs));
    DistinctCard(FormatsOf(trajs));
  }

  /** Labels follow first-encounter order: a trajectory whose format occurred
      earlier in the corpus gets that earlier trajectory's label; otherwise its
      label is the number of distinct formats seen before it. */
  lemma LabelFirstEncounter(trajs: seq<Trajectory>, i: nat)
    requires i < |trajs|
    ensures FormatOf(trajs[i]) in FormatToLabelOf(trajs)
    ensures FormatToLabelOf(trajs)[FormatOf(trajs[i])] == Canonical(FormatsOf(trajs))[i]
    ensures FormatToLabelOf(trajs)[FormatOf(trajs[i])] <= |LabelOrder(trajs[..i])|
    ensures FormatOf(trajs[i]) !in FormatsOf(trajs[..i]) ==> FormatToLabelOf(trajs)[FormatOf(trajs[i])] == |LabelOrder(trajs[..i])|
    ensures FormatOf(trajs[i]) in FormatsOf(trajs[..i]) ==>
      exists j :: 0 <= j < i && FormatOf(trajs[j]) == FormatOf(trajs[i]) &&
        FormatToLabelOf(trajs)[FormatOf(trajs[j])] == FormatToLabelOf(trajs)[FormatOf(trajs[i])]
  {
    var fs := FormatsOf(trajs);
    assert fs[i] == FormatOf(trajs[i]);
    DistinctMembers(fs, fs[i]);
    FormatsOfPrefix(trajs, i);
    CanonicalGrowth(fs, i);
    if fs[i] in fs[..i] {
      var j :| 0 <= j < i && fs[..i][j] == fs[i];
      assert fs[j] == FormatOf(trajs[j]);
    }
  }
}
