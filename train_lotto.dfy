/** The training-side feature encoder of the lotto predictor.

    Each draw (the six main numbers `number1..number6` of one round) becomes a
    row of `NumBalls` 0/1 slots, slot `c` being 1 exactly when ball `c + 1` was
    drawn.  The training pairs put the flattened rows of the `window` previous
    rounds (row-major, `window * NumBalls` entries) next to the row of the round
    that follows them.
 */
module TrainLotto {

  /** Number of previous rounds a feature row looks back over. */
  const Window: nat := 5
  /** Number of balls in the lotto; slot `c` of a row stands for ball `c + 1`. */
  const NumBalls: nat := 45

  /** The six main numbers of one round, as read from the data file. */
  type Draw = seq<int>

  // ---------------------------------------------------------------------------
  // Rows and matrices of 0/1 entries

  predicate IsBinary(r: seq<int>) {
    forall c :: 0 <= c < |r| ==> r[c] == 0 || r[c] == 1
  }

  /** A row of the presence matrix: `NumBalls` entries, each 0 or 1. */
  predicate IsPresenceRow(r: seq<int>) {
    |r| == NumBalls && IsBinary(r)
  }

  predicate IsPresenceMatrix(m: seq<seq<int>>) {
    forall i :: 0 <= i < |m| ==> IsPresenceRow(m[i])
  }

  /** The contents of a two-dimensional array, row by row. */
  function Rows(a: array2<int>): seq<seq<int>>
    reads a
  {
    seq(a.Length0, i reads a requires 0 <= i < a.Length0 =>
      seq(a.Length1, j reads a requires 0 <= j < a.Length1 => a[i, j]))
  }

  /** Number of slots of `r` that are set to 1. */
  function Ones(r: seq<int>): nat {
    if r == [] then 0 else (if r[0] == 1 then 1 else 0) + Ones(r[1..])
  }

  /** Row-major concatenation of the rows of `m` (numpy's `flatten`). */
  function Flatten(m: seq<seq<int>>): seq<int> {
    if m == [] then [] else m[0] + Flatten(m[1..])
  }

  // ---------------------------------------------------------------------------
  // Presence encoding (make_presence)

  /** Reference meaning of slot `c` of a draw's row: 1 when ball `c + 1` is one of its numbers. */
  function Drawn(draw: Draw, c: int): int {
    if c + 1 in draw then 1 else 0
  }

  /** One step of the inner loop: an in-range number `v` sets slot `v - 1`; any other number is skipped. */
  function Mark(row: seq<int>, v: int): (r: seq<int>)
    requires |row| == NumBalls
    ensures |r| == NumBalls
    ensures forall c :: 0 <= c < NumBalls ==> r[c] == if c + 1 == v then 1 else row[c]
  {
    if 1 <= v <= NumBalls then row[v - 1 := 1] else row
  }

  /** The row the inner loop leaves behind: a zero row with every number of `draw` marked in turn. */
  function FillRow(draw: Draw): (r: seq<int>)
    ensures |r| == NumBalls
  {
    if draw == [] then seq(NumBalls, _ => 0)
    else Mark(FillRow(draw[..|draw| - 1]), draw[|draw| - 1])
  }

  /** The presence matrix of a sequence of draws: one row per round. */
  function Presence(rows: seq<Draw>): (m: seq<seq<int>>)
    ensures |m| == |rows| && forall i :: 0 <= i < |m| ==> |m[i]| == NumBalls
  {
    seq(|rows|, i requires 0 <= i < |rows| => FillRow(rows[i]))
  }

  /** Slot `c` of a draw's row is 1 exactly when ball `c + 1` was drawn, and 0 otherwise. */
  lemma {:induction false} FillRowSlots(draw: Draw)
    ensures forall c :: 0 <= c < NumBalls ==> FillRow(draw)[c] == Drawn(draw, c)
  {
    if draw != [] {
      var init, v := draw[..|draw| - 1], draw[|draw| - 1];
      assert draw == init + [v];
      FillRowSlots(init);
      forall c | 0 <= c < NumBalls ensures FillRow(draw)[c] == Drawn(draw, c) {
        assert c + 1 in draw <==> c + 1 in init || c + 1 == v;
      }
    }
  }

  /** Every row of the presence matrix has exactly `NumBalls` entries, each 0 or 1. */
  lemma PresenceIsBinary(rows: seq<Draw>)
    ensures |Presence(rows)| == |rows|
    ensures IsPresenceMatrix(Presence(rows))
  {
    forall i | 0 <= i < |rows| ensures IsPresenceRow(Presence(rows)[i]) {
      FillRowSlots(rows[i]);
    }
  }

  /** `pres[i][v-1] == 1` exactly when `v` is one of the numbers of round `i` and lies in 1..NumBalls;
      every other slot is 0, so numbers outside the range leave no trace. */
  lemma PresenceMeans(rows: seq<Draw>, i: int, v: int)
    requires 0 <= i < |rows| && 1 <= v <= NumBalls
    ensures Presence(rows)[i][v - 1] == 1 <==> v in rows[i]
    ensures Presence(rows)[i][v - 1] == 0 <==> v !in rows[i]
  {
    FillRowSlots(rows[i]);
  }

  /** A row depends only on which in-range balls were drawn: order, repetitions and numbers
      outside 1..NumBalls do not change it. */
  lemma FillRowInRangeOnly(a: Draw, b: Draw)
    requires forall v :: 1 <= v <= NumBalls ==> (v in a <==> v in b)
    ensures FillRow(a) == FillRow(b)
  {
    FillRowSlots(a);
    FillRowSlots(b);
    forall c | 0 <= c < NumBalls ensures FillRow(a)[c] == FillRow(b)[c] {
      assert 1 <= c + 1 <= NumBalls;
    }
  }

  /** Setting one slot to 1 adds at most one to the number of ones. */
  lemma {:induction false} OnesSet(row: seq<int>, k: int)
    requires 0 <= k < |row|
    ensures Ones(row[k := 1]) <= Ones(row) + 1
  {
    if k == 0 {
      assert row[k := 1][1..] == row[1..];
    } else {
      assert row[k := 1][1..] == row[1..][k - 1 := 1];
      OnesSet(row[1..], k - 1);
    }
  }

  /** A draw marks at most as many slots as it has numbers; six numbers give at most six ones. */
  lemma {:induction false} OnesAtMostDraw(draw: Draw)
    ensures Ones(FillRow(draw)) <= |draw|
  {
    if draw == [] {
      ZerosHaveNoOnes(NumBalls);
    } else {
      var init, v := draw[..|draw| - 1], draw[|draw| - 1];
      OnesAtMostDraw(init);
      if 1 <= v <= NumBalls {
        OnesSet(FillRow(init), v - 1);
      }
    }
  }

  lemma {:induction false} ZerosHaveNoOnes(n: nat)
    ensures Ones(seq(n, _ => 0)) == 0
  {
    if n > 0 {
      assert seq(n, _ => 0)[1..] == seq(n - 1, _ => 0);
      ZerosHaveNoOnes(n - 1);
    }
  }

  /** make_presence: a zero-filled `|rows| x NumBalls` array whose row `i` gets slot `v - 1`
      set for each in-range number `v` of round `i`.  The guard keeps every write in bounds. */
  method MakePresence(rows: seq<Draw>) returns (pres: array2<int>)
    ensures fresh(pres)
    ensures pres.Length0 == |rows| && pres.Length1 == NumBalls
    ensures Rows(pres) == Presence(rows)
  {
    pres := new int[|rows|, NumBalls]((_, _) => 0);
    for i := 0 to |rows|
      invariant forall r, c :: 0 <= r < i && 0 <= c < NumBalls ==> pres[r, c] == FillRow(rows[r])[c]
      invariant forall r, c :: i <= r < |rows| && 0 <= c < NumBalls ==> pres[r, c] == 0
    {
      var nums := rows[i];
      for j := 0 to |nums|
        invariant forall r, c :: 0 <= r < i && 0 <= c < NumBalls ==> pres[r, c] == FillRow(rows[r])[c]
        invariant forall c :: 0 <= c < NumBalls ==> pres[i, c] == FillRow(nums[..j])[c]
        invariant forall r, c :: i < r < |rows| && 0 <= c < NumBalls ==> pres[r, c] == 0
      {
        var v := nums[j];
        assert nums[..j + 1][..j] == nums[..j];
        if 1 <= v <= NumBalls {
          pres[i, v - 1] := 1;
        }
      }
      assert nums[..|nums|] == nums;
    }
    forall r | 0 <= r < |rows| ensures Rows(pres)[r] == Presence(rows)[r] {
      assert forall c :: 0 <= c < NumBalls ==> Rows(pres)[r][c] == FillRow(rows[r])[c];
    }
  }

  // ---------------------------------------------------------------------------
  // Sliding-window features and targets (build_features_targets)

  /** Number of training pairs: one per round from index `window` on. */
  function PairCount(n: nat, window: nat): nat {
    if n > window then n - window else 0
  }

  /** `X[k]`: the flattened rows of rounds `k .. k + window - 1`. */
  function Features(pres: seq<seq<int>>, window: nat): (X: seq<seq<int>>)
    ensures |X| == if |pres| > window then |pres| - window else 0
  {
    seq(PairCount(|pres|, window), k requires 0 <= k < PairCount(|pres|, window) =>
      Flatten(pres[k..k + window]))
  }

  /** `Y[k]`: the row of round `k + window`. */
  function Targets(pres: seq<seq<int>>, window: nat): (Y: seq<seq<int>>)
    ensures Y == if |pres| > window then pres[window..] else []
  {
    seq(PairCount(|pres|, window), k requires 0 <= k < PairCount(|pres|, window) => pres[k + window])
  }

  /** build_features_targets: for each round `i` from `window` on, append the flattened window
      `pres[i-window:i]` to X and row `i` to Y.  It reads `pres` and changes nothing.  The window
      defaults to `Window`, as it does for the training run. */
  method BuildFeaturesTargets(pres: array2<int>, window: nat := Window) returns (X: seq<seq<int>>, Y: seq<seq<int>>)
    ensures X == Features(Rows(pres), window)
    ensures Y == Targets(Rows(pres), window)
  {
    X, Y := [], [];
    var i := window;
    while i < pres.Length0
      invariant window <= i && (i <= pres.Length0 || i == window)
      invariant |X| == |Y| == i - window
      invariant forall k :: 0 <= k < |X| ==> X[k] == Flatten(Rows(pres)[k..k + window])
      invariant forall k :: 0 <= k < |Y| ==> Y[k] == Rows(pres)[k + window]
    {
      var prev := Rows(pres)[i - window..i];
      var feat := Flatten(prev);
      X := X + [feat];
      Y := Y + [Rows(pres)[i]];
      i := i + 1;
    }
  }

  /** Flattening rows of `NumBalls` entries gives `|m| * NumBalls` entries, entry
      `r * NumBalls + c` being `m[r][c]` (row-major order). */
  lemma {:induction false} FlattenAt(m: seq<seq<int>>, r: int, c: int)
    requires forall i :: 0 <= i < |m| ==> |m[i]| == NumBalls
    requires 0 <= r < |m| && 0 <= c < NumBalls
    ensures |Flatten(m)| == |m| * NumBalls
    ensures Flatten(m)[r * NumBalls + c] == m[r][c]
  {
    FlattenLength(m);
    if r > 0 {
      FlattenAt(m[1..], r - 1, c);
    }
  }

  lemma {:induction false} FlattenLength(m: seq<seq<int>>)
    requires forall i :: 0 <= i < |m| ==> |m[i]| == NumBalls
    ensures |Flatten(m)| == |m| * NumBalls
  {
    if m != [] {
      FlattenLength(m[1..]);
    }
  }

  /** Flattening rows of 0/1 entries gives 0/1 entries. */
  lemma {:induction false} FlattenBinary(m: seq<seq<int>>)
    requires forall i :: 0 <= i < |m| ==> IsBinary(m[i])
    ensures IsBinary(Flatten(m))
  {
    if m != [] {
      FlattenBinary(m[1..]);
      assert forall c :: 0 <= c < |m[0]| ==> Flatten(m)[c] == m[0][c];
      assert forall c :: |m[0]| <= c < |Flatten(m)| ==> Flatten(m)[c] == Flatten(m[1..])[c - |m[0]|];
    }
  }

  /** There are `max(0, n - window)` pairs; `X[k]` has `window * NumBalls` entries laid out as the
      rows of rounds `k .. k + window - 1` one after the other; `Y[k]` is the row of round `k + window`. */
  lemma FeatureLayout(pres: seq<seq<int>>, window: nat, k: int, j: int)
    requires IsPresenceMatrix(pres)
    requires 0 <= k < PairCount(|pres|, window) && 0 <= j < window * NumBalls
    ensures |Features(pres, window)| == |Targets(pres, window)| == if |pres| > window then |pres| - window else 0
    ensures |Features(pres, window)[k]| == window * NumBalls
    ensures Features(pres, window)[k][j] == pres[k + j / NumBalls][j % NumBalls]
    ensures Targets(pres, window)[k] == pres[k + window]
  {
    FlattenAt(pres[k..k + window], j / NumBalls, j % NumBalls);
  }

  /** Every entry of every feature row and target row is 0 or 1, and target rows keep `NumBalls` slots. */
  lemma FeaturesBinary(pres: seq<seq<int>>, window: nat)
    requires IsPresenceMatrix(pres)
    ensures forall k :: 0 <= k < |Features(pres, window)| ==> IsBinary(Features(pres, window)[k])
    ensures IsPresenceMatrix(Targets(pres, window))
  {
    forall k | 0 <= k < |Features(pres, window)| ensures IsBinary(Features(pres, window)[k]) {
      FlattenBinary(pres[k..k + window]);
    }
  }

  /** The target round is never inside its own feature window: replacing the row of round
      `k + window` leaves `X[k]` unchanged. */
  lemma FeatureExcludesTarget(pres: seq<seq<int>>, window: nat, k: int, other: seq<int>)
    requires 0 <= k < PairCount(|pres|, window)
    ensures Features(pres[k + window := other], window)[k] == Features(pres, window)[k]
  {
  }

  /** The encoder end to end: the pairs built from the presence matrix of `rows` pair the
      in-range numbers of round `k + window` with those of the rounds before it. */
  lemma TrainingPairMeans(rows: seq<Draw>, window: nat, k: int, w: int, v: int)
    requires 0 <= k < PairCount(|rows|, window) && 0 <= w < window && 1 <= v <= NumBalls
    ensures |Features(Presence(rows), window)[k]| == window * NumBalls
    ensures Features(Presence(rows), window)[k][w * NumBalls + v - 1] == Drawn(rows[k + w], v - 1)
    ensures Targets(Presence(rows), window)[k][v - 1] == Drawn(rows[k + window], v - 1)
  {
    PresenceIsBinary(rows);
    FillRowSlots(rows[k + w]);
    FillRowSlots(rows[k + window]);
    FlattenAt(Presence(rows)[k..k + window], w, v - 1);
  }
}
