# Trajectory dataset core, modelled in Dafny

This project models the data layer of a private trajectory generator (`dataset.py`):

- how a trajectory of location ids is reduced to its **format**, the pattern in which it visits locations (`[5, 5, 2, 5]` becomes `"aaba"`);
- how formats are registered under integer **labels**, in first-encounter order;
- how every format gets a **reference**, the tuple that gives, per position, the first index holding the same symbol;
- how a reference is mapped back to its label;
- how timestamps are discretised into **time labels** and back;
- how `TrajectoryDataset` builds all of these tables once from a corpus;
- how its collate function turns a batch into padded input, target and time rows.

Modules (one file each):

- `Wrappers` (`wrappers.dfy`): `Option`, used where the source raises (a failed assertion, a missing dictionary key, a division by zero in `TimeToLabel`, an out-of-range index in `GetItem`).
- `Seqs` (`seqs.dfy`) holds the sequence notions the rest is stated in:
  - `Distinct`: a list without duplicates, in order of first appearance.
  - `IndexOf`: `list.index`.
  - `Canonical`: each element replaced by its rank among the distinct elements.
  - `IndexMap` and `ListMap`: a list turned into element → index and index → element dictionaries.
  - `Max` and `Min`.
- `Formats` (`formats.dfy`): `traj_to_format`.
- `Labels` (`labels.dfy`): `make_format_to_label`, `make_label_to_format` and `make_label_info`. Abstractly, the registry is `Distinct` of the corpus's formats, and a label is an index into that list.
- `References` (`references.dfy`): `make_reference`, `label_to_reference` and the inverse dictionary `reference_to_label_`.
- `TimeBuckets` (`time_buckets.dfy`): `time_to_label`, `label_to_time` and `time_ranges`.
- `Collate` (`collate.dfy`): the closure returned by `make_padded_collate`, stated row by row through predicates (`IsInputRow`, `IsTargetRow`, `IsTimeRows`).
- `Dataset` (`dataset.dfy`): the token statics and the class `TrajectoryDataset`.
  - Its fields are `const`s fixed by the constructor.
  - `Valid()` ties every field to the function of the corpus that defines it.
  - Its methods and lemmas state what each accessor returns.

Modelling choices:

- A format is a `seq<nat>` of ranks. The source's letter `chr(k + 97)` is the rank `k`, so `'a'` is `0`.
- Timestamps are natural numbers, and the float divisions of `time_to_label` and `label_to_time` are exact integer arithmetic:
  - `time_to_label` computes `floor(time * n_time_split / max_time) + 1`;
  - `label_to_time` computes `int()`-truncation of `(label - 1) * max_time / n_time_split`.
- Python's mutable lists and dictionaries that are built once and never changed afterwards are values (`seq`, `map`).
- Every loop of the source is a `method` with loop invariants, proved to meet its contract, most of them by equality with the function that specifies them.

`time_ranges` covers the labels `0 .. n_time_split - 1` only, not the whole of `[0, max_time]`:

- the last range ends at `label_to_time(n_time_split)`, strictly below a positive `max_time` (`TimeRangesTile`);
- timestamps from that end up to `max_time` (the label `n_time_split`, which `max_time` itself gets) fall in no range.

## Model

| member | source | states |
|---|---|---|
| Seqs.Distinct | dataset.py:32-35 | the distinct states: every entry occurs in the list, every element of the list is an entry, there are no duplicates, and there are no more entries than elements |
| Seqs.DistinctFirstVisitOrder | dataset.py:32-35 | the distinct states come in order of first visit: an earlier entry is first met earlier in the trajectory |
| Seqs.IndexOf | dataset.py:41 | `states.index(x)`: the position holds x and no earlier position does |
| Seqs.Max | dataset.py:128 | the maximum of a non-empty list is one of its elements and bounds all of them |
| Seqs.Min | dataset.py:113 | the minimum of a non-empty list is one of its elements and is below all of them |
| Seqs.CanonicalGrowth | dataset.py:39-41 | an element seen before gets its first occurrence's rank; a new element gets the number of distinct elements before it; the rank is never larger |
| Seqs.CanonicalEqualIff | dataset.py:29-44 | two lists have the same rank sequence exactly when they have the same equality pattern |
| Seqs.DistinctCard | dataset.py:5-11 | the number of distinct entries equals the size of the set of elements |
| Seqs.IndexOfFirst | dataset.py:98-99 | a symbol first met at position i has index i |
| Seqs.IndexMapOfNoDup | dataset.py:5-11 | over a duplicate-free list, the element → index dictionary has one key per entry, its values are exactly 0 .. n - 1, and entry l maps to l |
| Seqs.IndexListInverse | dataset.py:13-18 | over a duplicate-free list, element → index and index → element invert each other |
| Seqs.ListMapCard | dataset.py:13-18 | the index → element dictionary has one key per index |
| Formats.FormatOf | dataset.py:29-44 | the format has the trajectory's length and, when the trajectory is non-empty, starts with `'a'` (0) |
| Formats.TrajToFormat | dataset.py:29-44 | the two loops (collect the distinct states, then write each state's index) produce exactly `FormatOf(traj)` |
| Formats.FormatSame | dataset.py:33-41 | two positions get the same symbol if and only if they hold the same location |
| Formats.FormatFirstAppearance | dataset.py:33-41 | a revisited location repeats the symbol of its first visit; a new location gets the number of distinct locations before it |
| Formats.FormatRepeat | dataset.py:39-41 | a position repeats an earlier symbol if and only if it revisits a location |
| Formats.FormatEqualIff | dataset.py:29-44 | two trajectories share a format if and only if they visit locations in the same pattern, whatever the ids |
| Formats.FormatOfFormat | dataset.py:29-44 | the format of a format is itself |
| Formats.FormatExample | dataset.py:29-44 | `[5, 5, 2, 5]` has format `"aaba"` |
| Formats.ExampleLocations | dataset.py:32-35 | the distinct states of `[5, 5, 2, 5]` are `[5, 2]` |
| Labels.FormatsOf | dataset.py:7-8 | one format per trajectory |
| Labels.MakeFormatToLabel | dataset.py:5-11 | the loop that gives each unseen format the dictionary's current size yields the format → index dictionary of the distinct formats in first-encounter order |
| Labels.LabelOrderStep | dataset.py:7-10 | one more trajectory appends its format to the registry exactly when the format is new |
| Labels.MakeLabelToFormat | dataset.py:13-18 | the keys are exactly the input's labels; each key maps to a format carrying that label; for an injective input the result is its inverse, whatever the iteration order |
| Labels.MakeLabelInfo | dataset.py:21-27 | both dictionaries equal the registry of the corpus |
| Labels.RegistryRoundTrip | dataset.py:5-27 | every trajectory's format is registered, the labels are exactly 0 .. k - 1, and format → label and label → format invert each other |
| Labels.LabelCount | dataset.py:5-11 | there are as many labels as distinct formats in the corpus |
| Labels.LabelFirstEncounter | dataset.py:5-11 | a trajectory whose format occurred earlier gets the earlier label; otherwise its label is the number of distinct formats seen before it |
| References.ReferenceOf | dataset.py:94-101 | each position holds the first index with the same symbol: at most the position, the same symbol there, none earlier; position 0 holds 0; following an entry twice lands where once does |
| References.FirstIndices | dataset.py:96-101 | the loop that records each symbol's first index, then reads it per position, yields `ReferenceOf(format)` |
| References.ReplaceFirst | dataset.py:124-126 | `[x] + list(reference[1:])`: x at position 0, every other position kept, and an empty tuple becomes `(x,)` |
| References.MakeLabelToReference | dataset.py:103-105 | one reference per label of `label_to_format`, nothing else |
| References.ReferenceToLabelMap | dataset.py:121 | every label's reference becomes a key, and every key maps to a label whose reference it is |
| References.ReferenceOfTrajectory | dataset.py:94-101 | a trajectory's reference at position i is the first index of the trajectory holding location `traj[i]` |
| References.ReferenceDeterminesFormat | dataset.py:94-101 | two trajectories have the same reference if and only if they have the same format |
| References.LabelToReferenceInjective | dataset.py:103-105 | distinct labels have distinct references |
| References.ReferenceToLabelMapRoundTrip | dataset.py:121 | when references are pairwise distinct, inverting the dictionary sends each label's reference back to the label |
| References.ReferenceTablesInverse | dataset.py:120-121 | `label_to_reference` has keys 0 .. k - 1, and `reference_to_label_` is its exact inverse |
| References.LabelToReferenceKeys | dataset.py:103-105 | `label_to_reference` has exactly the labels 0 .. k - 1 as keys, one per distinct format |
| References.ReplaceFirstTwice | dataset.py:149-151 | resetting position 0 after the display substitution gives the same tuple as resetting it directly |
| References.ReplaceFirstSame | dataset.py:149-151 | resetting position 0 of a non-empty reference to what it holds changes nothing |
| TimeBuckets.TruncDiv | dataset.py:85 | `int()` of a quotient truncates toward zero, for both signs |
| TimeBuckets.BucketBounds | dataset.py:78 | a time strictly inside (0, max_time) has a bucket index below n_time_split |
| TimeBuckets.RepresentativeBound | dataset.py:85 | the representative time of labels 1 .. n_time_split + 1 is at most max_time |
| TimeBuckets.TimeToLabel | dataset.py:71-78 | time 0 gets 0; max_time gets n_time_split; a larger time fails; a time strictly inside gets the label l with `(l-1)*max <= time*n < l*max`, in 1 .. n, and fails when n_time_split is 0 |
| TimeBuckets.LabelToTime | dataset.py:83-85 | never negative; 0 for labels 0 and 1; otherwise the truncated lower end of the bucket; at most max_time for labels up to n_time_split + 1 |
| TimeBuckets.LabelToTimeMonotone | dataset.py:83-85 | a later label never maps to an earlier time |
| TimeBuckets.TimeToLabelMonotone | dataset.py:71-78 | every time up to max_time gets a label, and a later time never gets an earlier label |
| TimeBuckets.TimeWithinItsBucket | dataset.py:71-85 | every time up to max_time lies between the representative times of its label and of the next label |
| TimeBuckets.TimeRanges | dataset.py:134 | one range per i in 0 .. n_time_split - 1 |
| TimeBuckets.TimeRangesTile | dataset.py:134 | the ranges start at 0, are non-empty and contiguous, and the last ends at `label_to_time(n_time_split)`, which is strictly below a positive max_time |
| Collate.Trajectories | dataset.py:188 | the batch's trajectories, record by record |
| Collate.MaxLength | dataset.py:188 | `max_len` is the length of some record and no record is longer |
| Collate.Repeat | dataset.py:203 | `[x] * n`: n copies of x, none when n <= 0 |
| Collate.InputRowShape | dataset.py:203 | `[start] + trajectory + [ignore] * (max_len - len)` starts with the start token, then the trajectory, then ignore tokens up to max_len + 1 |
| Collate.TimeRowsShape | dataset.py:219-220 | the time input pads the time labels with the time end token to at least max_len + 1 entries; the time target is it shifted left and closed with the end token |
| Collate.MaskRepeatedLocations | dataset.py:208-214 | the loop over the format with `checked_target` sets exactly the positions j >= 1 that revisit a location to the ignore token and leaves the rest |
| Collate.EncodeRecord | dataset.py:195-220 | one record's input, target (shifted input with the duplicate and first-value masking) and time rows meet `EncodesRecord` |
| Collate.CollatedSnoc | dataset.py:190-228 | appending one record's rows and registered reference extends the records collated so far by that record |
| Collate.CollateBatch | dataset.py:187-228 | every record of a non-empty batch gets its rows, padded to the batch's longest trajectory, and the reference registered for its format's label |
| Collate.RowsDetermined | dataset.py:203-220 | the row predicates admit exactly one row each |
| Collate.CollateExample | dataset.py:203-217 | the batch `[1, 1, 3]`, `[2]` with duplicates removed gives inputs `[5,1,1,3]`, `[5,2,6,6]` and targets `[1,6,3,6]`, `[2,6,6,6]` |
| Dataset.StartIdx | dataset.py:48-50 | the start token `n_locations`, outside the location range `0 .. n_locations - 1` |
| Dataset.IgnoreIdx | dataset.py:52-54 | the ignore token `n_locations + 1`, outside the location range and different from the start token |
| Dataset.EndIdx | dataset.py:56-58 | the end token `n_locations + 2`, outside the location range and different from the start and ignore tokens |
| Dataset.VocabSize | dataset.py:60-62 | `n_locations + 3`: every location and the three tokens fit below it, and it counts exactly the locations plus the three tokens |
| Dataset.TimeEndIdx | dataset.py:64-66 | `n_split`: the label `time_to_label` gives a positive `max_time`, and no time label exceeds it |
| Dataset.TokensOutsideLocations | dataset.py:48-66 | start, ignore and end tokens are distinct and never collide with a location, and the vocabulary is the locations plus those three |
| Dataset.Lengths | dataset.py:112-113 | the length of every trajectory |
| Dataset.MinLength | dataset.py:113 | `min_len` is the length of some trajectory and no trajectory is shorter |
| Dataset.MaxTimeOf | dataset.py:128 | `max_time` is a timestamp of the corpus and no timestamp is larger |
| Dataset.TimeLabelsOf | dataset.py:131-132 | one label per timestamp, each at most n_time_split |
| Dataset.TimeLabelsWithinBuckets | dataset.py:130-132 | each timestamp lies between the representative times of its label and of the next label |
| Dataset.TimeLabelTrajsOf | dataset.py:130-132 | one tuple of time labels per time trajectory |
| Dataset.TimeLabelTrajsOfLoop | dataset.py:130-132 | the per-trajectory time labels the constructor's loop collects are `time_label_trajs` |
| Dataset.ComputeDatasetLabels | dataset.py:166-168 | the label of every trajectory is its format's rank among the corpus's distinct formats in first-encounter order |
| Dataset.ItemLabel | dataset.py:166-168 | trajectory i's label is registered and maps back to trajectory i's format |
| Dataset.LabelWitness | dataset.py:166-168 | every registered label is the label of some trajectory, and holds its format |
| Dataset.LabelLength | dataset.py:90-92 | a registered label's format has the length of every trajectory carrying the label |
| Dataset.DisplayReferencesOf | dataset.py:122-126 | one display reference per trajectory |
| Dataset.DisplayReferenceMeaning | dataset.py:122-126 | a display reference holds the first location (or -1) at position 0, and at later positions the first index of the trajectory holding the same location |
| Dataset.ReferencesFromTables | dataset.py:122-126 | the constructor's two comprehensions give one reference per trajectory |
| Dataset.ReferencesFromTablesCorrect | dataset.py:122-126 | every trajectory's label has a reference, and the two comprehensions yield the display references |
| Dataset.ReferenceOfEveryFormat | dataset.py:199-201 | looking a registered format's label up in `label_to_reference` gives that format's reference |
| Dataset.TrajectoryDataset.constructor | dataset.py:108-134 | builds every table from the corpus (registry, labels, both reference dictionaries, display references, max_time, time labels, time ranges) and establishes `Valid()` |
| Dataset.TrajectoryDataset.ReferenceToLabel | dataset.py:149-151 | resets position 0 to 0 and looks the tuple up; a label found has exactly that reference, and a miss means no label has it |
| Dataset.TrajectoryDataset.ReferenceToLabelRoundTrip | dataset.py:149-151 | any label of a non-empty format is found again from its reference, whatever position 0 holds |
| Dataset.TrajectoryDataset.ReferenceToLabelOfItem | dataset.py:149-151 | a non-empty trajectory's display reference leads back to the trajectory's label |
| Dataset.TrajectoryDataset.GetItem | dataset.py:157-161 | defined exactly for the indices `-len .. len - 1`, None where the indexing raises IndexError; returns trajectory k (negative indices count from the end) and the stored `time_label_trajs[k]`, the labels `time_to_label` gives its timestamps, each at most n_time_split and bracketing its timestamp |
| Dataset.TrajectoryDataset.Length | dataset.py:163-164 | the number of trajectories, equal to the number of labels, display references and time-label tuples |
| Dataset.TrajectoryDataset.LabelToLength | dataset.py:90-92 | defined exactly for the registered labels; the length of every trajectory carrying the label, and some trajectory carries it |
| Dataset.TrajectoryDataset.MakeReference | dataset.py:94-101 | defined exactly for the registered labels; the label's format's reference, equal to the stored `label_to_reference` entry |
| Dataset.TrajectoryDataset.ConvertTimeLabelTrajToTimeTraj | dataset.py:176-180 | every time label mapped to its representative time, in order |
| Dataset.TrajectoryDataset.ConvertTimeLabelTrajsToTimeTrajs | dataset.py:170-174 | the same, list by list, keeping every list's length |
| Dataset.TrajectoryDataset.ConvertedTimesBracket | dataset.py:170-180 | converting a stored time label back gives a time no later than the original timestamp, and the next label's representative time is no earlier than it |
| Dataset.TrajectoryDataset.PaddedCollate | dataset.py:182-230 | with this dataset's start, ignore and time end tokens, every record gets the four rows `EncodesRecord` describes, and its reference is its own trajectory's reference (position 0 is 0) |

## Left out

- Floating point: `time_to_label` and `label_to_time` divide floats. Here timestamps are natural numbers and the arithmetic is exact, so rounding at bucket boundaries is not modelled.
- `n_time_split` must be positive: the constructor and the converters require it. With `n_time_split == 0` the source's constructor still succeeds when every timestamp is `0` or `max_time`, since `time_to_label` returns before dividing and `time_ranges` is empty. It raises ZeroDivisionError only for a timestamp strictly between `0` and `max_time`. `TimeToLabel` models the 0 case itself: among timestamps up to `max_time` it gives `None` exactly for such a timestamp.
- `n_bins` (a square root of `n_locations`), `n_bins_for_distance`, `computed_auxiliary_information` and `dataset_name` / `__str__` are set but unused by the modelled core.
- `route_data` and the `print` calls of the constructor are left out, and so is the check that `route_data` has the corpus's length.
- The conversion of the collated rows to tensors (`torch.Tensor(...).long()`) is left out; the rows are sequences of integers.
- The `Dataset` base class is not part of this model.
- `_time_end_idx`, `_time_to_label` and `_label_to_time` only pass the instance's fields to the statics; the model calls the statics directly.
- The letter alphabet of formats (`chr(k + 97)`) is the rank `k` itself. Formats with more than 26 distinct symbols are no different here.
- Labels.MakeLabelToFormat: the source visits the dictionary in insertion order; here the order is chosen freely. Its contract holds for every order, so nothing depends on it.
- Dataset.TrajectoryDataset.ReferenceToLabelOfItem: holds for non-empty trajectories only. An empty trajectory's display reference can only be `(-1,)`, because with `real_start` the constructor's `traj[0]` raises on it. That reference is looked up as `(0,)`, which is the reference of the one-location format, not that of the empty format.
- Dataset.TrajectoryDataset.ReferenceToLabelRoundTrip: requires a non-empty format, for the same reason: the empty format's reference `()` is looked up as `(0,)`.
- Dataset.TrajectoryDataset.PaddedCollate: requires a non-empty batch whose formats are all registered. On an empty batch the source's `max` raises, and on an unregistered format the dictionary lookup raises.
- Dataset.TrajectoryDataset.constructor: requires `|data| == |timeData|`, the entry assertion of `__init__`. It also requires non-empty time trajectories and a non-empty corpus, where the source's `max` and `min` would raise. When `real_start` is set it also requires non-empty trajectories, where `traj[0]` would raise.
- `time_end_idx(n_split)` is `n_split`, which is also the label `time_to_label` gives to `max_time`. The two coincide in the time rows; the model keeps both values as the source has them.
