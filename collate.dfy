/** What padded_collate produces for one record, position by position: the
    location input and target rows, the masking rules, and the time rows. */
module Collate {
  import opened Formats
  import opened References

  /** What __getitem__ returns: a trajectory and its time labels. */
  datatype Item = Item(trajectory: Trajectory, timeTrajectory: seq<nat>)

  /** What padded_collate returns, one row per record in every field. */
  datatype Batch = Batch(input: seq<seq<int>>, target: seq<seq<int>>, time: seq<seq<int>>,
                         timeTarget: seq<seq<int>>, reference: seq<Reference>)

  /** The trajectories of a batch. */
  function Trajectories(batch: seq<Item>): (trajs: seq<Trajectory>)
    ensures |trajs| == |batch|
    ensures forall b :: 0 <= b < |batch| ==> trajs[b] == batch[b].trajectory
  {
    seq(|batch|, b requires 0 <= b < |batch| => batch[b].trajectory)
  }

  /** The longest trajectory of a non-empty batch (max_len). */
  function MaxLength(trajs: seq<Trajectory>): (m: nat)
    requires |trajs| > 0
    ensures forall i :: 0 <= i < |trajs| ==> |trajs[i]| <= m
    ensures exists i :: 0 <= i < |trajs| && |trajs[i]| == m
  {
    if |trajs| == 1 then |trajs[0]|
    else
      var m := MaxLength(trajs[..|trajs| - 1]);
      assert forall i :: 0 <= i < |trajs| - 1 ==> trajs[..|trajs| - 1][i] == trajs[i];
      if |trajs[|trajs| - 1]| > m then |trajs[|trajs| - 1]| else m
  }

  /** Python's `[x] * n`: n copies of x, none when n <= 0. */
  function Repeat(x: int, n: int): (r: seq<int>)
    ensures |r| == if n > 0 then n else 0
    ensures forall i :: 0 <= i < |r| ==> r[i] == x
  {
    seq(if n > 0 then n else 0, _ => x)
  }

  /** The input row: the start token, the trajectory, then the ignore token up
      to length maxLen + 1. */
  ghost predicate IsInputRow(traj: Trajectory, maxLen: nat, start: int, ignore: int, row: seq<int>) {
    |traj| <= maxLen &&
    |row| == maxLen + 1 && row[0] == start &&
    (forall j :: 0 <= j < |traj| ==> row[j + 1] == traj[j]) &&
    (forall j :: |traj| < j <= maxLen ==> row[j] == ignore)
  }

  /** Target position j is masked: the first position when first values are
      removed, and, when duplicates are removed, every later position whose
      location the trajectory visited before. */
  predicate Masked(traj: Trajectory, j: nat, removeFirstValue: bool, removeDuplicate: bool) {
    (removeFirstValue && j == 0) ||
    (removeDuplicate && 1 <= j < |traj| && traj[j] in traj[..j])
  }

  /** The target row: the input shifted left by one and closed with the
      ignore token, with the masked positions set to the ignore token. */
  ghost predicate IsTargetRow(traj: Trajectory, maxLen: nat, ignore: int, removeFirstValue: bool, removeDuplicate: bool,
                              input: seq<int>, row: seq<int>)
    requires |input| == maxLen + 1
  {
    |row| == maxLen + 1 && row[maxLen] == ignore &&
    forall j :: 0 <= j < maxLen ==>
      row[j] == if Masked(traj, j, removeFirstValue, removeDuplicate) then ignore else input[j + 1]
  }

  /** The time rows: the time labels padded with the time end token to at
      least maxLen + 1 entries, and the same row shifted left by one and
      closed with the time end token. */
  ghost predicate IsTimeRows(timeTraj: seq<nat>, maxLen: nat, timeEnd: int, timeInput: seq<int>, timeTarget: seq<int>) {
    |timeInput| == (if |timeTraj| > maxLen + 1 then |timeTraj| else maxLen + 1) &&
    (forall j :: 0 <= j < |timeTraj| ==> timeInput[j] == timeTraj[j]) &&
    (forall j :: |timeTraj| <= j < |timeInput| ==> timeInput[j] == timeEnd) &&
    |timeTarget| == |timeInput| && timeTarget[|timeTarget| - 1] == timeEnd &&
    (forall j :: 0 <= j < |timeInput| - 1 ==> timeTarget[j] == timeInput[j + 1])
  }

  /** The four rows of one record. */
  ghost predicate EncodesRecord(item: Item, maxLen: nat, startIdx: int, ignoreIdx: int, timeEndIdx: int,
                                removeFirstValue: bool, removeDuplicate: bool,
                                input: seq<int>, target: seq<int>, timeInput: seq<int>, timeTarget: seq<int>) {
    IsInputRow(item.trajectory, maxLen, startIdx, ignoreIdx, input) &&
    IsTargetRow(item.trajectory, maxLen, ignoreIdx, removeFirstValue, removeDuplicate, input, target) &&
    IsTimeRows(item.timeTrajectory, maxLen, timeEndIdx, timeInput, timeTarget)
  }

  /** The row predicates leave no freedom: each describes exactly one row. */
  lemma RowsDetermined(traj: Trajectory, timeTraj: seq<nat>, maxLen: nat, start: int, ignore: int, timeEnd: int,
                       removeFirstValue: bool, removeDuplicate: bool,
                       in1: seq<int>, in2: seq<int>, tg1: seq<int>, tg2: seq<int>,
                       ti1: seq<int>, ti2: seq<int>, tt1: seq<int>, tt2: seq<int>)
    requires IsInputRow(traj, maxLen, start, ignore, in1) && IsInputRow(traj, maxLen, start, ignore, in2)
    requires IsTargetRow(traj, maxLen, ignore, removeFirstValue, removeDuplicate, in1, tg1)
    requires IsTargetRow(traj, maxLen, ignore, removeFirstValue, removeDuplicate, in2, tg2)
    requires IsTimeRows(timeTraj, maxLen, timeEnd, ti1, tt1) && IsTimeRows(timeTraj, maxLen, timeEnd, ti2, tt2)
    ensures in1 == in2 && tg1 == tg2 && ti1 == ti2 && tt1 == tt2
  {
    forall j | 0 <= j < |in1| ensures in1[j] == in2[j] {
      if 1 <= j <= |traj| { assert in1[(j - 1) + 1] == traj[j - 1]; }
    }
    assert in1 == in2;
    forall j | 0 <= j < |tg1| ensures tg1[j] == tg2[j] {
    }
    forall j | 0 <= j < |ti1| ensures ti1[j] == ti2[j] {
    }
    assert ti1 == ti2;
    forall j | 0 <= j < |tt1| ensures tt1[j] == tt2[j] {
    }
  }

  /** A batch of [1, 1, 3] and [2] over 5 locations (start token 5, ignore
      token 6) with duplicates removed: inputs [5, 1, 1, 3] and [5, 2, 6, 6],
      targets [1, 6, 3, 6] and [2, 6, 6, 6]. */
  lemma CollateExample()
    ensures IsInputRow([1, 1, 3], 3, 5, 6, [5, 1, 1, 3])
    ensures IsTargetRow([1, 1, 3], 3, 6, false, true, [5, 1, 1, 3], [1, 6, 3, 6])
    ensures IsInputRow([2], 3, 5, 6, [5, 2, 6, 6])
    ensures IsTargetRow([2], 3, 6, false, true, [5, 2, 6, 6], [2, 6, 6, 6])
  {
    var a: Trajectory := [1, 1, 3];
    assert a[..1] == [1] && a[..2] == [1, 1];
    assert Masked(a, 1, false, true);
    assert !Masked(a, 2, false, true);
  }

  /** The input row as padded_collate builds it meets IsInputRow. */
  lemma InputRowShape(traj: Trajectory, maxLen: nat, start: int, ignore: int)
    requires |traj| <= maxLen
    ensures IsInputRow(traj, maxLen, start, ignore, [start] + traj + Repeat(ignore, maxLen - |traj|))
  {
    var row := [start] + traj + Repeat(ignore, maxLen - |traj|);
    forall j | 0 <= j < |traj| ensures row[j + 1] == traj[j] {
      assert row[j + 1] == ([start] + traj)[j + 1];
    }
    forall j | |traj| < j <= maxLen ensures row[j] == ignore {
      assert row[j] == Repeat(ignore, maxLen - |traj|)[j - |traj| - 1];
    }
  }

  /** The time rows as padded_collate builds them meet IsTimeRows. */
  lemma TimeRowsShape(timeTraj: seq<nat>, maxLen: nat, timeEnd: int)
    ensures var times: seq<int> := timeTraj;
      IsTimeRows(timeTraj, maxLen, timeEnd, times + Repeat(timeEnd, maxLen - |timeTraj| + 1),
                 (times + Repeat(timeEnd, maxLen - |timeTraj| + 1))[1..] + [timeEnd])
  {
    var times: seq<int> := timeTraj;
    var timeInput := times + Repeat(timeEnd, maxLen - |timeTraj| + 1);
    forall j | |timeTraj| <= j < |timeInput| ensures timeInput[j] == timeEnd {
      assert timeInput[j] == Repeat(timeEnd, maxLen - |timeTraj| + 1)[j - |timeTraj|];
    }
  }

  /** The duplicate masking of padded_collate: walking the trajectory's
      format from position 1, a symbol already checked sets its target
      position to the ignore token, a new one is added to the checked
      symbols. */
  method MaskRepeatedLocations(trajectory: Trajectory, maxLen: nat, ignoreIdx: int, target: seq<int>)
    returns (masked: seq<int>)
    requires |trajectory| <= maxLen && |target| == maxLen + 1
    ensures |masked| == maxLen + 1 && masked[maxLen] == target[maxLen]
    ensures forall j :: 0 <= j < maxLen ==>
      masked[j] == if Masked(trajectory, j, false, true) then ignoreIdx else target[j]
  {
    var format := TrajToFormat(trajectory);
    masked := target;
    // Symbols seen so far; symbol 0 is the first position's.
    var checkedTarget: seq<nat> := [0];
    var i := 1;
    while i < |format|
      invariant 1 <= i && (|format| > 0 ==> i <= |format|)
      invariant |format| > 0 ==> forall x :: x in checkedTarget <==> x in format[..i]
      invariant |masked| == maxLen + 1 && masked[maxLen] == target[maxLen]
      invariant forall j :: 0 <= j < maxLen ==>
        masked[j] == if j < i && Masked(trajectory, j, false, true) then ignoreIdx else target[j]
    {
      FormatRepeat(trajectory, i);
      assert format[..i + 1] == format[..i] + [format[i]];
      if format[i] !in checkedTarget {
        checkedTarget := checkedTarget + [format[i]];
      } else {
        masked := masked[i := ignoreIdx];
      }
      i := i + 1;
    }
  }

  /** One record of padded_collate: the input row, the target row with the
      duplicate and first-value masking, and the two time rows. */
  method EncodeRecord(item: Item, maxLen: nat, startIdx: int, ignoreIdx: int,
                      timeEndIdx: int, removeFirstValue: bool, removeDuplicate: bool)
    returns (input: seq<int>, target: seq<int>, timeInput: seq<int>, timeTarget: seq<int>)
    requires |item.trajectory| <= maxLen
    ensures EncodesRecord(item, maxLen, startIdx, ignoreIdx, timeEndIdx, removeFirstValue, removeDuplicate,
                          input, target, timeInput, timeTarget)
  {
    var trajectory, timeTrajectory := item.trajectory, item.timeTrajectory;
    input := [startIdx] + trajectory + Repeat(ignoreIdx, maxLen - |trajectory|);
    InputRowShape(trajectory, maxLen, startIdx, ignoreIdx);
    target := input[1..] + [ignoreIdx];
    assert forall j :: 0 <= j < maxLen ==> target[j] == input[j + 1];
    if removeDuplicate {
      target := MaskRepeatedLocations(trajectory, maxLen, ignoreIdx, target);
    }
    if removeFirstValue {
      target := target[0 := ignoreIdx];
    }
    var times: seq<int> := timeTrajectory;
    TimeRowsShape(timeTrajectory, maxLen, timeEndIdx);
    timeInput := times + Repeat(timeEndIdx, maxLen - |timeTrajectory| + 1);
    timeTarget := timeInput[1..] + [timeEndIdx];
  }

  /** The first n records of batch are collated into out: each has its rows
      and the reference its format's label is registered with. */
  ghost predicate CollatedUpTo(batch: seq<Item>, n: nat, maxLen: nat, startIdx: int, ignoreIdx: int, timeEndIdx: int,
                               formatToLabel: map<Format, nat>, labelToReference: map<nat, Reference>,
                               removeFirstValue: bool, removeDuplicate: bool, out: Batch) {
    n <= |batch| &&
    |out.input| == n && |out.target| == n && |out.time| == n && |out.timeTarget| == n && |out.reference| == n &&
    forall c :: 0 <= c < n ==>
      EncodesRecord(batch[c], maxLen, startIdx, ignoreIdx, timeEndIdx, removeFirstValue, removeDuplicate,
                    out.input[c], out.target[c], out.time[c], out.timeTarget[c]) &&
      FormatOf(batch[c].trajectory) in formatToLabel &&
      formatToLabel[FormatOf(batch[c].trajectory)] in labelToReference &&
      out.reference[c] == labelToReference[formatToLabel[FormatOf(batch[c].trajectory)]]
  }

  /** Appending the rows and the reference of record n extends the collated
      prefix by one record. */
  lemma CollatedSnoc(batch: seq<Item>, n: nat, maxLen: nat, startIdx: int, ignoreIdx: int, timeEndIdx: int,
                     formatToLabel: map<Format, nat>, labelToReference: map<nat, Reference>,
                     removeFirstValue: bool, removeDuplicate: bool, out: Batch,
                     input: seq<int>, target: seq<int>, timeInput: seq<int>, timeTarget: seq<int>, reference: Reference)
    requires CollatedUpTo(batch, n, maxLen, startIdx, ignoreIdx, timeEndIdx, formatToLabel, labelToReference,
                          removeFirstValue, removeDuplicate, out)
    requires n < |batch|
    requires EncodesRecord(batch[n], maxLen, startIdx, ignoreIdx, timeEndIdx, removeFirstValue, removeDuplicate,
                           input, target, timeInput, timeTarget)
    requires FormatOf(batch[n].trajectory) in formatToLabel
    requires formatToLabel[FormatOf(batch[n].trajectory)] in labelToReference
    requires reference == labelToReference[formatToLabel[FormatOf(batch[n].trajectory)]]
    ensures CollatedUpTo(batch, n + 1, maxLen, startIdx, ignoreIdx, timeEndIdx, formatToLabel, labelToReference,
                         removeFirstValue, removeDuplicate,
                         Batch(out.input + [input], out.target + [target], out.time + [timeInput],
                               out.timeTarget + [timeTarget], out.reference + [reference]))
  {
  }

  /** The closure padded_collate, over the tokens and the dictionaries it
      captures: every record becomes an input row, a target row, two time
      rows and the reference its format's label is registered with, all
      location rows padded to the batch's longest trajectory. */
  method CollateBatch(batch: seq<Item>, startIdx: int, ignoreIdx: int, timeEndIdx: int,
                      formatToLabel: map<Format, nat>, labelToReference: map<nat, Reference>,
                      removeFirstValue: bool, removeDuplicate: bool) returns (out: Batch)
    requires |batch| > 0
    requires forall b :: 0 <= b < |batch| ==>
      FormatOf(batch[b].trajectory) in formatToLabel && formatToLabel[FormatOf(batch[b].trajectory)] in labelToReference
    ensures var maxLen := MaxLength(Trajectories(batch));
      |out.input| == |batch| && |out.target| == |batch| && |out.time| == |batch| &&
      |out.timeTarget| == |batch| && |out.reference| == |batch| &&
      forall b :: 0 <= b < |batch| ==>
        EncodesRecord(batch[b], maxLen, startIdx, ignoreIdx, timeEndIdx, removeFirstValue, removeDuplicate,
                      out.input[b], out.target[b], out.time[b], out.timeTarget[b]) &&
        out.reference[b] == labelToReference[formatToLabel[FormatOf(batch[b].trajectory)]]
  {
    var maxLen := MaxLength(Trajectories(batch));
    out := Batch([], [], [], [], []);
    for b := 0 to |batch|
      invariant CollatedUpTo(batch, b, maxLen, startIdx, ignoreIdx, timeEndIdx, formatToLabel, labelToReference,
                             removeFirstValue, removeDuplicate, out)
    {
      var format := TrajToFormat(batch[b].trajectory);
      var reference := labelToReference[formatToLabel[format]];
      var input, target, timeInput, timeTarget := EncodeRecord(batch[b], maxLen,
        startIdx, ignoreIdx, timeEndIdx, removeFirstValue, removeDuplicate);
      CollatedSnoc(batch, b, maxLen, startIdx, ignoreIdx, timeEndIdx, formatToLabel, labelToReference,
                   removeFirstValue, removeDuplicate, out, input, target, timeInput, timeTarget, reference);
      out := Batch(out.input + [input], out.target + [target], out.time + [timeInput],
                   out.timeTarget + [timeTarget], out.reference + [reference]);
    }
  }
}
