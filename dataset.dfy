/** TrajectoryDataset: built once from a corpus of trajectories and their
    timestamps, it holds the label registry, the reference tables, the
    per-trajectory labels, display references and time labels, and encodes
    batches for training. Every field is fixed by the constructor. */
module Dataset {
  import opened Wrappers
  import opened Seqs
  import opened Formats
  import opened Labels
  import opened References
  import opened TimeBuckets
  import opened Collate

  /** Token indices: locations are 0 .. n_locations - 1, then the start,
      ignore and end tokens; time labels end with the time end token. */
  function StartIdx(nLocations: nat): (t: nat)
    ensures nLocations <= t
  {
    nLocations
  }

  function IgnoreIdx(nLocations: nat): (t: nat)
    ensures nLocations <= t
    ensures t != StartIdx(nLocations)
  {
    nLocations + 1
  }

  function EndIdx(nLocations: nat): (t: nat)
    ensures nLocations <= t
    ensures t != StartIdx(nLocations) && t != IgnoreIdx(nLocations)
  {
    nLocations + 2
  }

  /** The locations and the three tokens, and nothing else. */
  function VocabSize(nLocations: nat): (v: nat)
    ensures StartIdx(nLocations) < v && IgnoreIdx(nLocations) < v && EndIdx(nLocations) < v
    ensures v == nLocations + |[StartIdx(nLocations), IgnoreIdx(nLocations), EndIdx(nLocations)]|
  {
    nLocations + 3
  }

  /** The time end token is the label max_time gets, and no time label is
      larger. */
  function TimeEndIdx(nSplit: nat): (t: nat)
    ensures forall maxTime: nat :: maxTime > 0 ==> TimeToLabel(maxTime, nSplit, maxTime) == Some(t)
    ensures forall time: nat, maxTime: nat :: TimeToLabel(time, nSplit, maxTime).Some? ==>
      TimeToLabel(time, nSplit, maxTime).value <= t
  {
    nSplit
  }

  /** The three location tokens are distinct, lie above every location, and
      the vocabulary holds exactly the locations and the three tokens. */
  lemma TokensOutsideLocations(nLocations: nat)
    ensures StartIdx(nLocations) != IgnoreIdx(nLocations) && IgnoreIdx(nLocations) != EndIdx(nLocations) && EndIdx(nLocations) != StartIdx(nLocations)
    ensures nLocations <= StartIdx(nLocations) && nLocations <= IgnoreIdx(nLocations) && nLocations <= EndIdx(nLocations)
    ensures VocabSize(nLocations) == nLocations + |[StartIdx(nLocations), IgnoreIdx(nLocations), EndIdx(nLocations)]|
    ensures StartIdx(nLocations) < VocabSize(nLocations) && IgnoreIdx(nLocations) < VocabSize(nLocations) && EndIdx(nLocations) < VocabSize(nLocations)
  {
  }

  /** The length of every trajectory. */
  function Lengths(data: seq<Trajectory>): (lens: seq<int>)
    ensures |lens| == |data|
    ensures forall i :: 0 <= i < |data| ==> lens[i] == |data[i]|
  {
    seq(|data|, i requires 0 <= i < |data| => |data[i]|)
  }

  /** The shortest length of a non-empty corpus (min_len). */
  function MinLength(data: seq<Trajectory>): (m: nat)
    requires |data| > 0
    ensures forall i :: 0 <= i < |data| ==> m <= |data[i]|
    ensures exists i :: 0 <= i < |data| && |data[i]| == m
  {
    var lens := Lengths(data);
    var m := Min(lens);
    assert forall i :: 0 <= i < |data| ==> m <= |data[i]| by {
      forall i | 0 <= i < |data| ensures m <= |data[i]| { assert lens[i] in lens; }
    }
    var i :| 0 <= i < |lens| && lens[i] == m;
    m
  }

  /** max_time: the largest timestamp of the whole corpus. */
  function MaxTimeOf(timeData: seq<seq<nat>>): (m: nat)
    requires |timeData| > 0 && forall i :: 0 <= i < |timeData| ==> |timeData[i]| > 0
    ensures forall i, j :: 0 <= i < |timeData| && 0 <= j < |timeData[i]| ==> timeData[i][j] <= m
    ensures exists i, j :: 0 <= i < |timeData| && 0 <= j < |timeData[i]| && timeData[i][j] == m
  {
    var maxima := seq(|timeData|, i requires 0 <= i < |timeData| => Max(timeData[i]));
    var m := Max(maxima);
    assert forall i, j :: 0 <= i < |timeData| && 0 <= j < |timeData[i]| ==> timeData[i][j] <= m by {
      forall i, j | 0 <= i < |timeData| && 0 <= j < |timeData[i]| ensures timeData[i][j] <= m {
        assert timeData[i][j] in timeData[i];
        assert maxima[i] in maxima;
      }
    }
    var i :| 0 <= i < |maxima| && maxima[i] == m;
    var j :| 0 <= j < |timeData[i]| && timeData[i][j] == m;
    m
  }

  /** One time trajectory turned into labels (the tuple comprehension over
      _time_to_label in the constructor). */
  function TimeLabelsOf(timeTraj: seq<nat>, nTimeSplit: nat, maxTime: nat): (labels: seq<nat>)
    requires nTimeSplit > 0 && forall j :: 0 <= j < |timeTraj| ==> timeTraj[j] <= maxTime
    ensures |labels| == |timeTraj|
    ensures forall j :: 0 <= j < |timeTraj| ==> labels[j] <= nTimeSplit
  {
    seq(|timeTraj|, j requires 0 <= j < |timeTraj| => TimeToLabel(timeTraj[j], nTimeSplit, maxTime).value)
  }

  /** Every time label brackets its timestamp between the representative
      times of the label and of the next label. */
  lemma TimeLabelsWithinBuckets(timeTraj: seq<nat>, nTimeSplit: nat, maxTime: nat)
    requires nTimeSplit > 0 && forall j :: 0 <= j < |timeTraj| ==> timeTraj[j] <= maxTime
    ensures forall j :: 0 <= j < |timeTraj| ==>
      LabelToTime(TimeLabelsOf(timeTraj, nTimeSplit, maxTime)[j], nTimeSplit, maxTime) <= timeTraj[j] <=
      LabelToTime(TimeLabelsOf(timeTraj, nTimeSplit, maxTime)[j] + 1, nTimeSplit, maxTime)
  {
    forall j | 0 <= j < |timeTraj|
      ensures LabelToTime(TimeLabelsOf(timeTraj, nTimeSplit, maxTime)[j], nTimeSplit, maxTime) <= timeTraj[j] <=
              LabelToTime(TimeLabelsOf(timeTraj, nTimeSplit, maxTime)[j] + 1, nTimeSplit, maxTime)
    {
      TimeWithinItsBucket(timeTraj[j], nTimeSplit, maxTime);
    }
  }

  /** time_label_trajs of a corpus. */
  function TimeLabelTrajsOf(timeData: seq<seq<nat>>, nTimeSplit: nat): (tl: seq<seq<nat>>)
    requires nTimeSplit > 0
    requires |timeData| > 0 && forall i :: 0 <= i < |timeData| ==> |timeData[i]| > 0
    ensures |tl| == |timeData|
  {
    var maxTime := MaxTimeOf(timeData);
    seq(|timeData|, i requires 0 <= i < |timeData| => TimeLabelsOf(timeData[i], nTimeSplit, maxTime))
  }

  /** _compute_dataset_labels: the label of every trajectory's format. */
  function ComputeDatasetLabels(data: seq<Trajectory>, formatToLabel: map<Format, nat>): (labels: seq<nat>)
    requires formatToLabel == FormatToLabelOf(data)
    ensures labels == Canonical(FormatsOf(data))
  {
    RegistryRoundTrip(data);
    var labels := seq(|data|, i requires 0 <= i < |data| => formatToLabel[FormatOf(data[i])]);
    assert forall i :: 0 <= i < |data| ==> labels[i] == Canonical(FormatsOf(data))[i] by {
      forall i | 0 <= i < |data| ensures labels[i] == Canonical(FormatsOf(data))[i] {
        LabelFirstEncounter(data, i);
      }
    }
    labels
  }

  /** The label of trajectory i is a key of label_to_format holding that
      trajectory's format. */
  lemma ItemLabel(data: seq<Trajectory>, i: nat)
    requires i < |data|
    ensures Canonical(FormatsOf(data))[i] in LabelToFormatOf(data)
    ensures LabelToFormatOf(data)[Canonical(FormatsOf(data))[i]] == FormatOf(data[i])
  {
    RegistryRoundTrip(data);
    LabelFirstEncounter(data, i);
  }

  /** Every label of the registry is the label of some trajectory of the
      corpus, whose format it holds. */
  lemma LabelWitness(data: seq<Trajectory>, l: nat)
    requires l in LabelToFormatOf(data)
    ensures exists i :: 0 <= i < |data| && Canonical(FormatsOf(data))[i] == l && FormatOf(data[i]) == LabelToFormatOf(data)[l]
  {
    var fs := FormatsOf(data);
    var order := LabelOrder(data);
    DistinctMembers(fs, order[l]);
    var i :| 0 <= i < |fs| && fs[i] == order[l];
    assert fs[i] == FormatOf(data[i]);
    ItemLabel(data, i);
  }

  /** The display reference of one trajectory: its format's reference with
      position 0 replaced by its first location (real_start) or by -1. */
  function DisplayReference(traj: Trajectory, realStart: bool): Reference
    requires realStart ==> |traj| > 0
  {
    ReplaceFirst(ReferenceOf(FormatOf(traj)), if realStart then traj[0] else -1)
  }

  /** The display references of the whole corpus. */
  function DisplayReferencesOf(data: seq<Trajectory>, realStart: bool): (refs: seq<Reference>)
    requires realStart ==> forall i :: 0 <= i < |data| ==> |data[i]| > 0
    ensures |refs| == |data|
  {
    seq(|data|, i requires 0 <= i < |data| => DisplayReference(data[i], realStart))
  }

  /** A display reference shows the first location (or -1) at position 0 and,
      at every later position, the first index of the trajectory holding the
      same location. */
  lemma DisplayReferenceMeaning(traj: Trajectory, realStart: bool)
    requires realStart ==> |traj| > 0
    ensures |DisplayReference(traj, realStart)| == if |traj| == 0 then 1 else |traj|
    ensures DisplayReference(traj, realStart)[0] == if realStart then traj[0] else -1
    ensures forall j :: 1 <= j < |traj| ==> DisplayReference(traj, realStart)[j] == IndexOf(traj, traj[j])
  {
    forall j | 1 <= j < |traj| ensures DisplayReference(traj, realStart)[j] == IndexOf(traj, traj[j]) {
      ReferenceOfTrajectory(traj, j);
    }
  }

  /** The references attribute as the constructor builds it: label_to_reference
      looked up by each trajectory's label, then position 0 overwritten by the
      first location (real_start) or by -1. */
  function ReferencesFromTables(data: seq<Trajectory>, labels: seq<nat>, labelToReference: map<nat, Reference>,
                                realStart: bool): (refs: seq<Reference>)
    requires |labels| == |data| && forall i :: 0 <= i < |labels| ==> labels[i] in labelToReference
    requires realStart ==> forall i :: 0 <= i < |data| ==> |data[i]| > 0
    ensures |refs| == |data|
  {
    var refs := seq(|labels|, i requires 0 <= i < |labels| => labelToReference[labels[i]]);
    if realStart then seq(|data|, i requires 0 <= i < |data| => ReplaceFirst(refs[i], data[i][0]))
    else seq(|data|, i requires 0 <= i < |data| => ReplaceFirst(refs[i], -1))
  }

  /** Built from the corpus's own tables, the references are the display
      references of the trajectories. */
  lemma ReferencesFromTablesCorrect(data: seq<Trajectory>, realStart: bool)
    requires realStart ==> forall i :: 0 <= i < |data| ==> |data[i]| > 0
    ensures forall i :: 0 <= i < |data| ==> Canonical(FormatsOf(data))[i] in LabelToReferenceOf(data)
    ensures ReferencesFromTables(data, Canonical(FormatsOf(data)), LabelToReferenceOf(data), realStart) ==
            DisplayReferencesOf(data, realStart)
  {
    forall i | 0 <= i < |data| ensures Canonical(FormatsOf(data))[i] in LabelToReferenceOf(data) {
      ItemLabel(data, i);
    }
    var refs := ReferencesFromTables(data, Canonical(FormatsOf(data)), LabelToReferenceOf(data), realStart);
    forall i | 0 <= i < |data| ensures refs[i] == DisplayReferencesOf(data, realStart)[i] {
      ItemLabel(data, i);
    }
  }

  /** Time labels computed trajectory by trajectory are the corpus's
      time_label_trajs. */
  lemma TimeLabelTrajsOfLoop(timeData: seq<seq<nat>>, nTimeSplit: nat, tl: seq<seq<nat>>)
    requires nTimeSplit > 0
    requires |timeData| > 0 && forall i :: 0 <= i < |timeData| ==> |timeData[i]| > 0
    requires |tl| == |timeData|
    requires forall i :: 0 <= i < |timeData| ==> tl[i] == TimeLabelsOf(timeData[i], nTimeSplit, MaxTimeOf(timeData))
    ensures tl == TimeLabelTrajsOf(timeData, nTimeSplit)
  {
  }

  class TrajectoryDataset {
    const data: seq<Trajectory>
    const timeData: seq<seq<nat>>
    const nLocations: nat
    const nTimeSplit: nat
    const realStart: bool
    const seqLen: nat
    const minLen: nat
    const formatToLabel: map<Format, nat>
    const labelToFormat: map<nat, Format>
    const labels: seq<nat>
    const labelToReference: map<nat, Reference>
    const referenceToLabel: map<Reference, nat>
    const references: seq<Reference>
    const maxTime: nat
    const timeLabelTrajs: seq<seq<nat>>
    const timeRanges: seq<(int, int)>

    /** What the constructor accepts: as many time trajectories as
        trajectories, none of them empty, and trajectories with a first
        location when real_start asks for it. */
    ghost predicate WellFormedCorpus() {
      |data| == |timeData| && |data| > 0 && nTimeSplit > 0 &&
      (forall i :: 0 <= i < |timeData| ==> |timeData[i]| > 0) &&
      (realStart ==> forall i :: 0 <= i < |data| ==> |data[i]| > 0)
    }

    /** The registry, the labels and the two reference dictionaries are those
        of the corpus. */
    ghost predicate RegistryValid() {
      formatToLabel == FormatToLabelOf(data) &&
      labelToFormat == LabelToFormatOf(data) &&
      labels == Canonical(FormatsOf(data)) &&
      labelToReference == LabelToReferenceOf(data) &&
      referenceToLabel == ReferenceToLabelOf(data)
    }

    /** The invariant the constructor establishes: every table is the value
        the corpus determines. */
    ghost predicate Valid() {
      WellFormedCorpus() && RegistryValid() &&
      seqLen == MaxLength(data) && minLen == MinLength(data) &&
      references == DisplayReferencesOf(data, realStart) &&
      maxTime == MaxTimeOf(timeData) &&
      timeLabelTrajs == TimeLabelTrajsOf(timeData, nTimeSplit) &&
      timeRanges == TimeRanges(nTimeSplit, maxTime)
    }

    /** __init__: asserts the corpus and the time corpus have the same number
        of entries, then builds every table. */
    constructor (data: seq<Trajectory>, timeData: seq<seq<nat>>, nLocations: nat, nTimeSplit: nat, realStart: bool)
      requires |data| == |timeData|
      requires |data| > 0
      requires forall i :: 0 <= i < |timeData| ==> |timeData[i]| > 0
      requires realStart ==> forall i :: 0 <= i < |data| ==> |data[i]| > 0
      requires nTimeSplit > 0
      ensures Valid()
      ensures this.data == data && this.timeData == timeData && this.realStart == realStart
      ensures this.nLocations == nLocations && this.nTimeSplit == nTimeSplit
    {
      // time_label_trajs: one tuple of time labels per time trajectory.
      var mt := MaxTimeOf(timeData);
      var tl: seq<seq<nat>> := [];
      for k := 0 to |timeData|
        invariant |tl| == k
        invariant forall i :: 0 <= i < k ==> tl[i] == TimeLabelsOf(timeData[i], nTimeSplit, mt)
      {
        tl := tl + [TimeLabelsOf(timeData[k], nTimeSplit, mt)];
      }
      TimeLabelTrajsOfLoop(timeData, nTimeSplit, tl);
      this.data := data;
      this.seqLen := MaxLength(data);
      this.minLen := MinLength(data);
      this.timeData := timeData;
      this.nLocations := nLocations;
      var ftl, ltf := MakeLabelInfo(data);
      this.formatToLabel := ftl;
      this.labelToFormat := ltf;
      var labels := ComputeDatasetLabels(data, ftl);
      this.labels := labels;
      var ltr := MakeLabelToReference(ltf);
      this.labelToReference := ltr;
      LabelToReferenceKeys(data);
      this.referenceToLabel := ReferenceToLabelMap(ltr, |ltr|);
      ReferencesFromTablesCorrect(data, realStart);
      this.references := ReferencesFromTables(data, labels, ltr, realStart);
      this.realStart := realStart;
      this.nTimeSplit := nTimeSplit;
      this.maxTime := mt;
      this.timeLabelTrajs := tl;
      this.timeRanges := TimeRanges(nTimeSplit, mt);
    }

    /** reference_to_label: the tuple with position 0 reset to 0 looked up in
        reference_to_label_; None where the source raises KeyError. A found
        label has exactly that reference, and None means no label has it. */
    function ReferenceToLabel(reference: Reference): (r: Option<nat>)
      requires Valid()
      ensures r.Some? ==> r.value in labelToFormat && labelToReference[r.value] == ReplaceFirst(reference, 0)
      ensures r.None? ==> forall l :: l in labelToReference ==> labelToReference[l] != ReplaceFirst(reference, 0)
    {
      ReferenceTablesInverse(data);
      var key := ReplaceFirst(reference, 0);
      if key in referenceToLabel then Some(referenceToLabel[key]) else None
    }

    /** A registered label of a non-empty format is found again from its
        reference, whatever position 0 holds. */
    lemma ReferenceToLabelRoundTrip(l: nat, first: int)
      requires Valid()
      requires l in labelToFormat && |labelToFormat[l]| > 0
      ensures ReferenceToLabel(ReplaceFirst(labelToReference[l], first)) == Some(l)
    {
      ReferenceTablesInverse(data);
      var ref := labelToReference[l];
      ReplaceFirstTwice(ref, first, 0);
      ReplaceFirstSame(ref);
    }

    /** The display reference of a non-empty trajectory leads back to the
        trajectory's label. */
    lemma ReferenceToLabelOfItem(i: nat)
      requires Valid()
      requires i < |data| && |data[i]| > 0
      ensures ReferenceToLabel(references[i]) == Some(labels[i])
    {
      ItemLabel(data, i);
      var first := if realStart then data[i][0] else -1;
      assert references[i] == ReplaceFirst(labelToReference[labels[i]], first);
      ReferenceToLabelRoundTrip(labels[i], first);
    }

    /** __getitem__, with Python's negative indices: the trajectory and its
        stored time labels, each label bracketing its timestamp; None where
        the source's indexing raises IndexError. */
    function GetItem(index: int): (item: Option<Item>)
      requires Valid()
      ensures item.None? <==> !(-|data| <= index < |data|)
      ensures item.Some? ==> var k := if index < 0 then index + |data| else index;
        item.value.trajectory == data[k] &&
        item.value.timeTrajectory == timeLabelTrajs[k] &&
        item.value.timeTrajectory == TimeLabelsOf(timeData[k], nTimeSplit, maxTime) &&
        forall j :: 0 <= j < |timeData[k]| ==>
          item.value.timeTrajectory[j] <= nTimeSplit &&
          LabelToTime(item.value.timeTrajectory[j], nTimeSplit, maxTime) <= timeData[k][j] <=
          LabelToTime(item.value.timeTrajectory[j] + 1, nTimeSplit, maxTime)
    {
      if -|data| <= index < |data| then
        var k := if index < 0 then index + |data| else index;
        TimeLabelsWithinBuckets(timeData[k], nTimeSplit, maxTime);
        Some(Item(data[k], timeLabelTrajs[k]))
      else
        None
    }

    /** __len__: one entry per trajectory, label, display reference and
        tuple of time labels. */
    function Length(): (n: nat)
      requires Valid()
      ensures n == |labels| == |references| == |timeLabelTrajs| == |timeData|
    {
      |data|
    }

    /** label_to_length; None where the source raises KeyError. A registered
        label's length is the length of every trajectory carrying it. */
    function LabelToLength(l: nat): (n: Option<nat>)
      requires Valid()
      ensures n.Some? <==> l < |LabelOrder(data)|
      ensures n.Some? ==> forall i :: 0 <= i < |data| && labels[i] == l ==> |data[i]| == n.value
      ensures n.Some? ==> exists i :: 0 <= i < |data| && labels[i] == l
    {
      RegistryRoundTrip(data);
      if l in labelToFormat then
        LabelLength(data, l);
        Some(|labelToFormat[l]|)
      else None
    }

    /** make_reference: the reference of the label's format; None where the
        source raises KeyError. */
    method MakeReference(l: nat) returns (ref: Option<Reference>)
      requires Valid()
      ensures ref.Some? <==> l in labelToFormat
      ensures ref.Some? ==> ref.value == ReferenceOf(labelToFormat[l]) == labelToReference[l]
    {
      if l !in labelToFormat {
        return None;
      }
      var reference := FirstIndices(labelToFormat[l]);
      ref := Some(reference);
    }

    /** convert_time_label_traj_to_time_traj: the loop maps every time label
        to its representative time. */
    method ConvertTimeLabelTrajToTimeTraj(timeLabelTraj: seq<nat>) returns (timeTraj: seq<int>)
      requires nTimeSplit > 0
      ensures |timeTraj| == |timeLabelTraj|
      ensures forall i :: 0 <= i < |timeTraj| ==> timeTraj[i] == LabelToTime(timeLabelTraj[i], nTimeSplit, maxTime)
    {
      timeTraj := [];
      for k := 0 to |timeLabelTraj|
        invariant |timeTraj| == k
        invariant forall i :: 0 <= i < k ==> timeTraj[i] == LabelToTime(timeLabelTraj[i], nTimeSplit, maxTime)
      {
        timeTraj := timeTraj + [LabelToTime(timeLabelTraj[k], nTimeSplit, maxTime)];
      }
    }

    /** convert_time_label_trajs_to_time_trajs: the same, list by list. */
    method ConvertTimeLabelTrajsToTimeTrajs(timeLabelTrajs: seq<seq<nat>>) returns (timeTrajs: seq<seq<int>>)
      requires nTimeSplit > 0
      ensures |timeTrajs| == |timeLabelTrajs|
      ensures forall k :: 0 <= k < |timeTrajs| ==> |timeTrajs[k]| == |timeLabelTrajs[k]|
      ensures forall k, i :: 0 <= k < |timeTrajs| && 0 <= i < |timeTrajs[k]| ==>
        timeTrajs[k][i] == LabelToTime(timeLabelTrajs[k][i], nTimeSplit, maxTime)
    {
      timeTrajs := [];
      for k := 0 to |timeLabelTrajs|
        invariant |timeTrajs| == k
        invariant forall j :: 0 <= j < k ==> |timeTrajs[j]| == |timeLabelTrajs[j]|
        invariant forall j, i :: 0 <= j < k && 0 <= i < |timeTrajs[j]| ==>
          timeTrajs[j][i] == LabelToTime(timeLabelTrajs[j][i], nTimeSplit, maxTime)
      {
        var timeTraj := ConvertTimeLabelTrajToTimeTraj(timeLabelTrajs[k]);
        timeTrajs := timeTrajs + [timeTraj];
      }
    }

    /** Converting an item's time labels back gives, position by position, a
        time no later than the original timestamp and no earlier than the
        lower end of the timestamp's bucket. */
    lemma ConvertedTimesBracket(i: nat, j: nat)
      requires Valid()
      requires i < |timeData| && j < |timeData[i]|
      ensures LabelToTime(timeLabelTrajs[i][j], nTimeSplit, maxTime) <= timeData[i][j] <=
              LabelToTime(timeLabelTrajs[i][j] + 1, nTimeSplit, maxTime)
    {
      TimeLabelsWithinBuckets(timeData[i], nTimeSplit, maxTime);
    }

    /** make_padded_collate followed by a call of the closure it returns:
        the closure encodes the batch with this dataset's tokens and tables,
        and every record's reference is its own trajectory's reference. */
    method PaddedCollate(batch: seq<Item>, removeFirstValue: bool, removeDuplicate: bool) returns (out: Batch)
      requires Valid()
      requires |batch| > 0
      requires forall b :: 0 <= b < |batch| ==> FormatOf(batch[b].trajectory) in formatToLabel
      ensures var maxLen := MaxLength(Trajectories(batch));
        |out.input| == |batch| && |out.target| == |batch| && |out.time| == |batch| &&
        |out.timeTarget| == |batch| && |out.reference| == |batch| &&
        forall b :: 0 <= b < |batch| ==>
          EncodesRecord(batch[b], maxLen, StartIdx(nLocations), IgnoreIdx(nLocations), TimeEndIdx(nTimeSplit),
                        removeFirstValue, removeDuplicate, out.input[b], out.target[b], out.time[b], out.timeTarget[b]) &&
          out.reference[b] == ReferenceOf(FormatOf(batch[b].trajectory))
    {
      ReferenceOfEveryFormat(data);
      out := CollateBatch(batch, StartIdx(nLocations), IgnoreIdx(nLocations), TimeEndIdx(nTimeSplit),
                          formatToLabel, labelToReference, removeFirstValue, removeDuplicate);
    }
  }

  /** A registered label's format has the length of every trajectory carrying
      the label, and some trajectory carries it. */
  lemma LabelLength(data: seq<Trajectory>, l: nat)
    requires l in LabelToFormatOf(data)
    ensures forall i :: 0 <= i < |data| && Canonical(FormatsOf(data))[i] == l ==> |data[i]| == |LabelToFormatOf(data)[l]|
    ensures exists i :: 0 <= i < |data| && Canonical(FormatsOf(data))[i] == l
  {
    LabelWitness(data, l);
    forall i | 0 <= i < |data| && Canonical(FormatsOf(data))[i] == l
      ensures |data[i]| == |LabelToFormatOf(data)[l]|
    {
      ItemLabel(data, i);
    }
  }

  /** Looking a format's label up in label_to_reference gives that format's
      reference. */
  lemma ReferenceOfEveryFormat(data: seq<Trajectory>)
    ensures forall f :: f in FormatToLabelOf(data) ==>
      FormatToLabelOf(data)[f] in LabelToReferenceOf(data) &&
      LabelToReferenceOf(data)[FormatToLabelOf(data)[f]] == ReferenceOf(f)
  {
    RegistryRoundTrip(data);
  }

}
