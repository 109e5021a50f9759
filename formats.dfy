/** The format canonicaliser (traj_to_format): a trajectory becomes the
    sequence of first-appearance ranks of its locations. The source writes rank
    k as the letter chr(k + 97); here the rank itself is the symbol, so 'a' is 0. */
module Formats {
  import opened Seqs

  type Location = int
  type Trajectory = seq<Location>
  type Format = seq<nat>

  /** The format of a trajectory, as a value. */
  function FormatOf(traj: Trajectory): (f: Format)
    ensures |f| == |traj|
    ensures |traj| > 0 ==> f[0] == 0
  {
    if |traj| > 0 then CanonicalGrowth(traj, 0); Canonical(traj) else Canonical(traj)
  }

  /** Positions i and j get the same symbol exactly when they hold the same
      location. */
  lemma FormatSame(traj: Trajectory, i: nat, j: nat)
    requires i < |traj| && j < |traj|
    ensures FormatOf(traj)[i] == FormatOf(traj)[j] <==> traj[i] == traj[j]
  {
    CanonicalSame(traj, i, j);
  }

  /** traj_to_format: the first loop collects the distinct locations in order
      of first appearance, the second writes each location's rank among them. */
  method TrajToFormat(traj: Trajectory) returns (format: Format)
    ensures format == FormatOf(traj)
  {
    var states: seq<Location> := [];
    for k := 0 to |traj|
      invariant states == Distinct(traj[..k])
    {
      DistinctMembers(traj[..k], traj[k]);
      DistinctSnoc(traj, k);
      if traj[k] !in states {
        states := states + [traj[k]];
      }
    }
    assert traj[..|traj|] == traj;
    format := [];
    for k := 0 to |traj|
      invariant format == Canonical(traj)[..k]
    {
      DistinctMembers(traj, traj[k]);
      format := format + [IndexOf(states, traj[k])];
      SnocPrefix(Canonical(traj), k);
    }
    assert Canonical(traj)[..|traj|] == Canonical(traj);
  }

  /** Each position either repeats the symbol of the location's first visit or,
      at a location not seen before, takes the next unused symbol: the number
      of distinct locations visited so far. */
  lemma FormatFirstAppearance(traj: Trajectory, i: nat)
    requires i < |traj|
    ensures FormatOf(traj)[i] <= |Distinct(traj[..i])|
    ensures traj[i] in traj[..i] ==> FormatOf(traj)[i] == FormatOf(traj)[IndexOf(traj, traj[i])]
    ensures traj[i] !in traj[..i] ==> FormatOf(traj)[i] == |Distinct(traj[..i])|
  {
    CanonicalGrowth(traj, i);
  }

  /** A position repeats an earlier symbol exactly when it revisits a location. */
  lemma FormatRepeat(traj: Trajectory, i: nat)
    requires i < |traj|
    ensures FormatOf(traj)[i] in FormatOf(traj)[..i] <==> traj[i] in traj[..i]
  {
    var f := FormatOf(traj);
    if f[i] in f[..i] {
      var j :| 0 <= j < i && f[..i][j] == f[i];
      FormatSame(traj, i, j);
      assert traj[..i][j] == traj[i];
    }
    if traj[i] in traj[..i] {
      var j :| 0 <= j < i && traj[..i][j] == traj[i];
      FormatSame(traj, i, j);
      assert f[..i][j] == f[i];
    }
  }

  /** Two trajectories share a format exactly when they visit their locations
      in the same pattern, whatever the location identities. */
  lemma FormatEqualIff(t1: Trajectory, t2: Trajectory)
    ensures FormatOf(t1) == FormatOf(t2) <==> SamePattern(t1, t2)
  {
    CanonicalEqualIff(t1, t2);
  }

  /** A format is its own format. */
  lemma FormatOfFormat(traj: Trajectory)
    ensures FormatOf(FormatOf(traj)) == FormatOf(traj)
  {
    var f := FormatOf(traj);
    CanonicalPattern(traj);
    assert SamePattern(traj, f);
    FormatEqualIff(traj, f);
  }

  /** The trajectory [5, 5, 2, 5] has format "aaba". */
  lemma FormatExample()
    ensures FormatOf([5, 5, 2, 5]) == [0, 0, 1, 0]
  {
    var t: Trajectory := [5, 5, 2, 5];
    ExampleLocations();
    var c := Canonical(t);
    assert c[0] == IndexOf([5, 2], 5) == 0;
    assert c[1] == IndexOf([5, 2], 5) == 0;
    assert c[2] == IndexOf([5, 2], 2) == 1;
    assert c[3] == IndexOf([5, 2], 5) == 0;
  }

  /** The distinct locations of [5, 5, 2, 5], in order of first visit. */
  lemma ExampleLocations()
    ensures Distinct([5, 5, 2, 5]) == [5, 2]
  {
    var t: Trajectory := [5, 5, 2, 5];
    assert t[..0] == [];
    DistinctSnoc(t, 0);
    assert t[..1] == [5];
    DistinctSnoc(t, 1);
    assert t[..2] == [5, 5];
    DistinctSnoc(t, 2);
    assert t[..3] == [5, 5, 2];
    DistinctSnoc(t, 3);
    assert t[..4] == t;
  }
}
