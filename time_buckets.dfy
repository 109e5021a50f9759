/** The time discretiser (time_to_label, label_to_time and time_ranges):
    timestamps in [0, max_time] fall
    into n_time_split equal buckets labelled 1 .. n_time_split, with 0 reserved
    for time 0 and n_time_split for max_time itself; a label maps back to the
    lower end of its bucket. Timestamps are natural numbers and the source's
    float divisions are exact rational divisions here. */
module TimeBuckets {
  import opened Wrappers

  /** Python's int() of a quotient: division truncating toward zero. */
  function TruncDiv(a: int, b: int): (q: int)
    requires b > 0
    ensures a >= 0 ==> q * b <= a < (q + 1) * b
    ensures a < 0 ==> (q - 1) * b < a <= q * b
  {
    DivBounds(if a >= 0 then a else -a, b);
    if a >= 0 then a / b else -((-a) / b)
  }

  /** Floor division of a natural number, with the bounds that define it. */
  lemma DivBounds(a: nat, b: nat)
    requires b > 0
    ensures (a / b) * b <= a < (a / b + 1) * b
  {
  }

  /** Floor division is monotone in the dividend. */
  lemma DivMonotone(a1: nat, a2: nat, b: nat)
    requires b > 0 && a1 <= a2
    ensures a1 / b <= a2 / b
  {
    DivBounds(a1, b);
    DivBounds(a2, b);
    if a1 / b > a2 / b {
      MulMonotone(a2 / b + 1, a1 / b, b);
    }
  }

  lemma MulMonotone(x: nat, y: nat, b: nat)
    requires x <= y
    ensures x * b <= y * b
  {
  }

  /** The bucket index of a time strictly inside (0, max_time) is below
      n_time_split. */
  lemma BucketBounds(time: nat, nTimeSplit: nat, maxTime: nat)
    requires 0 < time < maxTime && nTimeSplit > 0
    ensures time * nTimeSplit / maxTime < nTimeSplit
  {
    var q := time * nTimeSplit / maxTime;
    DivBounds(time * nTimeSplit, maxTime);
    MulMonotone(time, maxTime - 1, nTimeSplit);
    if q >= nTimeSplit { MulMonotone(nTimeSplit, q, maxTime); }
  }

  /** The representative time of a label up to n_time_split + 1 is at most
      max_time. */
  lemma RepresentativeBound(timeLabel: nat, nTimeSplit: nat, maxTime: nat)
    requires 1 <= timeLabel <= nTimeSplit + 1 && nTimeSplit > 0
    ensures TruncDiv((timeLabel - 1) * maxTime, nTimeSplit) <= maxTime
  {
    var v := TruncDiv((timeLabel - 1) * maxTime, nTimeSplit);
    MulMonotone(timeLabel - 1, nTimeSplit, maxTime);
    if v > maxTime { MulMonotone(maxTime + 1, v, nTimeSplit); }
  }

  /** time_to_label; None where the source fails: its assertion when the time
      exceeds max_time, and a division by zero when n_time_split is 0. A time
      strictly inside (0, max_time) lands in the bucket l with
      (l - 1) * max_time <= time * n_time_split < l * max_time. */
  function TimeToLabel(time: nat, nTimeSplit: nat, maxTime: nat): (r: Option<nat>)
    ensures time == 0 ==> r == Some(0)
    ensures 0 < time == maxTime ==> r == Some(nTimeSplit)
    ensures time > maxTime ==> r == None
    ensures 0 < time < maxTime ==> (r.Some? <==> nTimeSplit > 0)
    ensures 0 < time < maxTime && r.Some? ==>
      1 <= r.value <= nTimeSplit &&
      (r.value - 1) * maxTime <= time * nTimeSplit < r.value * maxTime
  {
    if time == 0 then Some(0)
    else if time == maxTime then Some(nTimeSplit)
    else if time > maxTime then None
    else if nTimeSplit == 0 then None
    else
      BucketBounds(time, nTimeSplit, maxTime);
      Some(time * nTimeSplit / maxTime + 1)
  }

  /** label_to_time: max(int((label - 1) * max_time / n_time_split), 0), the
      lower end of the label's bucket. */
  function LabelToTime(timeLabel: nat, nTimeSplit: nat, maxTime: nat): (t: int)
    requires nTimeSplit > 0
    ensures t >= 0
    ensures timeLabel <= 1 ==> t == 0
    ensures timeLabel >= 1 ==> t * nTimeSplit <= (timeLabel - 1) * maxTime < (t + 1) * nTimeSplit
    ensures timeLabel <= nTimeSplit + 1 ==> t <= maxTime
  {
    var v := TruncDiv((timeLabel - 1) * maxTime, nTimeSplit);
    assert 1 <= timeLabel <= nTimeSplit + 1 ==> v <= maxTime by {
      if 1 <= timeLabel <= nTimeSplit + 1 {
        RepresentativeBound(timeLabel, nTimeSplit, maxTime);
      }
    }
    if v > 0 then v else 0
  }

  /** A later timeLabel never maps to an earlier time. */
  lemma LabelToTimeMonotone(l1: nat, l2: nat, nTimeSplit: nat, maxTime: nat)
    requires nTimeSplit > 0 && l1 <= l2
    ensures LabelToTime(l1, nTimeSplit, maxTime) <= LabelToTime(l2, nTimeSplit, maxTime)
  {
    if l1 >= 1 {
      MulMonotone(l1 - 1, l2 - 1, maxTime);
      DivMonotone((l1 - 1) * maxTime, (l2 - 1) * maxTime, nTimeSplit);
    }
  }

  /** A later time never gets an earlier timeLabel. */
  lemma TimeToLabelMonotone(t1: nat, t2: nat, nTimeSplit: nat, maxTime: nat)
    requires nTimeSplit > 0 && t1 <= t2 <= maxTime
    ensures TimeToLabel(t1, nTimeSplit, maxTime).Some? && TimeToLabel(t2, nTimeSplit, maxTime).Some?
    ensures TimeToLabel(t1, nTimeSplit, maxTime).value <= TimeToLabel(t2, nTimeSplit, maxTime).value
  {
    if 0 < t1 && t2 < maxTime {
      MulMonotone(t1, t2, nTimeSplit);
      DivMonotone(t1 * nTimeSplit, t2 * nTimeSplit, maxTime);
    }
  }

  /** Every time from 0 to max_time lies between the representative times of
      its timeLabel and of the next timeLabel. */
  lemma TimeWithinItsBucket(time: nat, nTimeSplit: nat, maxTime: nat)
    requires nTimeSplit > 0 && time <= maxTime
    ensures TimeToLabel(time, nTimeSplit, maxTime).Some?
    ensures var l := TimeToLabel(time, nTimeSplit, maxTime).value;
      LabelToTime(l, nTimeSplit, maxTime) <= time <= LabelToTime(l + 1, nTimeSplit, maxTime)
  {
    var l := TimeToLabel(time, nTimeSplit, maxTime).value;
    var lo, hi := LabelToTime(l, nTimeSplit, maxTime), LabelToTime(l + 1, nTimeSplit, maxTime);
    if time == maxTime && time > 0 {
      assert hi * nTimeSplit <= nTimeSplit * maxTime < (hi + 1) * nTimeSplit;
      if hi < maxTime { MulMonotone(hi + 1, maxTime, nTimeSplit); }
    } else if 0 < time < maxTime {
      if lo > time { MulMonotone(time + 1, lo, nTimeSplit); }
      if hi < time { MulMonotone(hi + 1, time, nTimeSplit); }
    }
  }

  /** time_ranges: for each i in 0 .. n_time_split - 1 the pair of the
      representative times of labels i and i + 1. */
  function TimeRanges(nTimeSplit: nat, maxTime: nat): (ranges: seq<(int, int)>)
    requires nTimeSplit > 0
    ensures |ranges| == nTimeSplit
  {
    seq(nTimeSplit, i requires 0 <= i < nTimeSplit =>
      (LabelToTime(i, nTimeSplit, maxTime), LabelToTime(i + 1, nTimeSplit, maxTime)))
  }

  /** The ranges start at 0, each is non-empty, each upper end is the next
      range's lower end, and the last ends at the lower end of timeLabel
      n_time_split's bucket, strictly below a positive max_time: timestamps
      from there up to max_time fall in no range. */
  lemma TimeRangesTile(nTimeSplit: nat, maxTime: nat)
    requires nTimeSplit > 0
    ensures TimeRanges(nTimeSplit, maxTime)[0].0 == 0
    ensures forall i :: 0 <= i < nTimeSplit ==> TimeRanges(nTimeSplit, maxTime)[i].0 <= TimeRanges(nTimeSplit, maxTime)[i].1
    ensures forall i :: 0 <= i < nTimeSplit - 1 ==> TimeRanges(nTimeSplit, maxTime)[i].1 == TimeRanges(nTimeSplit, maxTime)[i + 1].0
    ensures TimeRanges(nTimeSplit, maxTime)[nTimeSplit - 1].1 == LabelToTime(nTimeSplit, nTimeSplit, maxTime) <= maxTime
    ensures maxTime > 0 ==> TimeRanges(nTimeSplit, maxTime)[nTimeSplit - 1].1 < maxTime
  {
    var r := TimeRanges(nTimeSplit, maxTime);
    var last := LabelToTime(nTimeSplit, nTimeSplit, maxTime);
    if maxTime > 0 && last >= maxTime {
      MulMonotone(maxTime, last, nTimeSplit);
    }
    forall i | 0 <= i < nTimeSplit
      ensures r[i].0 <= r[i].1
    {
      LabelToTimeMonotone(i, i + 1, nTimeSplit, maxTime);
    }
  }
}
