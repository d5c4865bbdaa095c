/** The inference-side feature encoder of the lotto predictor: the presence matrix of all
    rounds is rebuilt in place and the rows of the most recent rounds are flattened into
    the single feature row handed to the trained model.
 */
module PredictLotto {
  import opened TrainLotto

  /** Python's rule for where a slice `a[start:]` over `n` elements begins: a negative start
      counts from the end and is clamped at 0, a non-negative one is clamped at `n`. */
  function SliceStart(n: nat, start: int): nat {
    if start < 0 then (if n + start < 0 then 0 else n + start)
    else (if start > n then n else start)
  }

  /** The first row kept by Python's slice `pres[-window:]` over `n` rows.  A positive
      window keeps the last `window` rows (all of them when there are fewer); since
      `-0 == 0`, a window of 0 keeps every row; a negative window drops the first
      `-window` rows. */
  function TailStart(n: nat, window: int): (s: nat)
    ensures s <= n
    ensures s == SliceStart(n, -window)
    ensures window > 0 ==> n - s == (if window < n then window else n)
    ensures window <= 0 ==> s == (if -window < n then -window else n)
  {
    if window > 0 then (if window < n then n - window else 0)
    else (if -window < n then -window else n)
  }

  /** The one feature row built from the rounds `rows`, in the order they are given. */
  function RecentFeature(rows: seq<Draw>, window: int): (f: seq<int>)
    ensures |f| == (|rows| - TailStart(|rows|, window)) * NumBalls
  {
    FlattenLength(Presence(rows)[TailStart(|rows|, window)..]);
    Flatten(Presence(rows)[TailStart(|rows|, window)..])
  }

  /** load_recent_features: collect the numbers of every round, fill a zero
      `|rows| x NumBalls` array in place (the same marking rule as make_presence, written
      out again), then flatten its last `window` rows into a 1-row matrix. */
  method LoadRecentFeatures(rows: seq<Draw>, window: int) returns (feat: seq<seq<int>>)
    ensures feat == [RecentFeature(rows, window)]
  {
    var nums: seq<Draw> := [];
    for i := 0 to |rows|
      invariant nums == rows[..i]
    {
      nums := nums + [rows[i]];
    }
    assert nums == rows;

    var pres := new int[|nums|, NumBalls]((_, _) => 0);
    for i := 0 to |nums|
      invariant forall r, c :: 0 <= r < i && 0 <= c < NumBalls ==> pres[r, c] == FillRow(nums[r])[c]
      invariant forall r, c :: i <= r < |nums| && 0 <= c < NumBalls ==> pres[r, c] == 0
    {
      var ns := nums[i];
      for j := 0 to |ns|
        invariant forall r, c :: 0 <= r < i && 0 <= c < NumBalls ==> pres[r, c] == FillRow(nums[r])[c]
        invariant forall c :: 0 <= c < NumBalls ==> pres[i, c] == FillRow(ns[..j])[c]
        invariant forall r, c :: i < r < |nums| && 0 <= c < NumBalls ==> pres[r, c] == 0
      {
        var v := ns[j];
        assert ns[..j + 1][..j] == ns[..j];
        if 1 <= v <= NumBalls {
          pres[i, v - 1] := 1;
        }
      }
      assert ns[..|ns|] == ns;
    }
    forall r | 0 <= r < |nums| ensures Rows(pres)[r] == Presence(nums)[r] {
      assert forall c :: 0 <= c < NumBalls ==> Rows(pres)[r][c] == FillRow(nums[r])[c];
    }

    assert Rows(pres) == Presence(rows);
    var last := Rows(pres)[TailStart(|nums|, window)..];
    feat := [Flatten(last)];
  }

  /** With at least `window > 0` rounds, the feature row is the last `window` presence rows
      flattened, `window * NumBalls` entries; with fewer rounds it is all of them,
      `|rows| * NumBalls` entries.  Either way every entry is 0 or 1. */
  lemma RecentFeatureShape(rows: seq<Draw>, window: int)
    requires window > 0
    ensures |rows| >= window ==> RecentFeature(rows, window) == Flatten(Presence(rows)[|rows| - window..])
    ensures |rows| >= window ==> |RecentFeature(rows, window)| == window * NumBalls
    ensures |rows| < window ==> RecentFeature(rows, window) == Flatten(Presence(rows))
    ensures |rows| < window ==> |RecentFeature(rows, window)| == |rows| * NumBalls
    ensures IsBinary(RecentFeature(rows, window))
  {
    PresenceIsBinary(rows);
    var tail := Presence(rows)[TailStart(|rows|, window)..];
    FlattenLength(tail);
    FlattenBinary(tail);
    assert Presence(rows)[0..] == Presence(rows);
  }

  /** Every entry of the feature row is 0 or 1, whatever the window. */
  lemma RecentFeatureBinary(rows: seq<Draw>, window: int)
    ensures IsBinary(RecentFeature(rows, window))
  {
    PresenceIsBinary(rows);
    FlattenBinary(Presence(rows)[TailStart(|rows|, window)..]);
  }

  /** Python's `-0 == 0`: a window of 0 keeps every round, so the feature row has
      `|rows| * NumBalls` entries, whereas training with a window of 0 builds empty features. */
  lemma ZeroWindowKeepsAllRounds(rows: seq<Draw>)
    ensures RecentFeature(rows, 0) == Flatten(Presence(rows))
    ensures |RecentFeature(rows, 0)| == |rows| * NumBalls
    ensures |Features(Presence(rows), 0)| == |rows|
    ensures forall k :: 0 <= k < |rows| ==> Features(Presence(rows), 0)[k] == []
  {
  }

  /** Entry `w * NumBalls + v - 1` of the feature row says whether ball `v` was drawn in the
      `w`-th of the last `window` rounds; numbers outside 1..NumBalls never show up. */
  lemma RecentFeatureMeans(rows: seq<Draw>, window: int, w: int, v: int)
    requires 0 < window <= |rows| && 0 <= w < window && 1 <= v <= NumBalls
    ensures |RecentFeature(rows, window)| == window * NumBalls
    ensures RecentFeature(rows, window)[w * NumBalls + v - 1] == Drawn(rows[|rows| - window + w], v - 1)
  {
    PresenceIsBinary(rows);
    var tail := Presence(rows)[|rows| - window..];
    FlattenAt(tail, w, v - 1);
    FillRowSlots(rows[|rows| - window + w]);
  }

  /** Inference uses the training layout: with `n >= window > 0` rounds, the feature row is the
      feature row training would pair with a next round `n`, whatever that round's numbers are. */
  lemma InferenceMatchesTraining(rows: seq<Draw>, next: Draw, window: nat)
    requires 0 < window <= |rows|
    ensures |rows| - window < |Features(Presence(rows + [next]), window)|
    ensures RecentFeature(rows, window) == Features(Presence(rows + [next]), window)[|rows| - window]
  {
    var n := |rows|;
    assert Presence(rows + [next])[n - window..n] == Presence(rows)[n - window..] by {
      forall i | n - window <= i < n ensures Presence(rows + [next])[i] == Presence(rows)[i] {
        assert (rows + [next])[i] == rows[i];
      }
    }
  }
}
