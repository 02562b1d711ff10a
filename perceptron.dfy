/** The per-branch linear classifier: 64 signed 8-bit weights and a bias,
    queried with a dot product against the global history and trained by
    saturating +/-1 steps. */
module Perceptrons {

  /** Number of history bits, and so of weights, per perceptron. */
  const HistoryLength: nat := 64
  /** Saturation bounds of an `int8_t` weight. */
  const MinWeight: int := -128
  const MaxWeight: int := 127
  /** Largest magnitude the dot product can reach: 64 weights and a bias of magnitude at most 128. */
  const OutputLimit: int := (HistoryLength + 1) * 128

  /** `int8_t`: the storage type of weights and bias. */
  newtype int8 = x: int | -128 <= x < 128
  /** `int`: the accumulator type of the dot product. */
  newtype int32 = x: int | -0x8000_0000 <= x < 0x8000_0000

  /** A `std::bitset<64>`: element i is bit i, bit 0 being the most recent outcome. */
  type History = h: seq<bool> | |h| == HistoryLength witness seq(64, _ => false)

  /** The value of a perceptron's fields: its weights and bias. */
  datatype PerceptronState = PerceptronState(weights: seq<int8>, bias: int8)

  predicate WellFormed(s: PerceptronState) {
    |s.weights| == HistoryLength
  }

  /** The state a perceptron is constructed in: every weight and the bias zero. */
  function Zero(): (s: PerceptronState)
    ensures WellFormed(s)
    ensures forall i :: 0 <= i < HistoryLength ==> s.weights[i] == 0
    ensures s.bias == 0
  {
    PerceptronState(seq(HistoryLength, _ => 0), 0)
  }

  /** `b ? 1 : -1` */
  function Polarity(b: bool): int {
    if b then 1 else -1
  }

  /** Sum over the first n history bits of weight times (+1 for a set bit, -1 for a clear one);
      with 8-bit weights its magnitude is at most 128 * n. */
  function Dot(w: seq<int8>, h: seq<bool>, n: nat): (r: int)
    requires n <= |w| && n <= |h|
    ensures -128 * n <= r <= 128 * n
  {
    if n == 0 then 0 else Dot(w, h, n - 1) + w[n - 1] as int * Polarity(h[n - 1])
  }

  /** What `perceptron::predict` returns: the bias plus the dot product over all 64 bits.
      It is within OutputLimit, so it fits the 32-bit accumulator. */
  function Output(s: PerceptronState, h: History): (r: int)
    requires WellFormed(s)
    ensures -OutputLimit <= r <= OutputLimit
    ensures -0x8000_0000 <= r < 0x8000_0000
  {
    s.bias as int + Dot(s.weights, h, HistoryLength)
  }

  function Min(a: int, b: int): int { if a < b then a else b }
  function Max(a: int, b: int): int { if a < b then b else a }

  /** The saturation of `perceptron::train`: x limited to [MIN_WEIGHT, MAX_WEIGHT] and
      stored back into an `int8_t`. */
  function Clamp(x: int): (r: int8)
    ensures MinWeight <= x <= MaxWeight ==> r as int == x
    ensures x < MinWeight ==> r as int == MinWeight
    ensures x > MaxWeight ==> r as int == MaxWeight
  {
    Max(MinWeight, Min(MaxWeight, x)) as int8
  }

  /** A saturating step of one: up when `up` holds, down otherwise, and no move at the bound. */
  predicate SaturatingStep(before: int8, after: int8, up: bool) {
    if up then after as int == (if before as int == MaxWeight then MaxWeight else before as int + 1)
    else after as int == (if before as int == MinWeight then MinWeight else before as int - 1)
  }

  /** The state `perceptron::train` leaves: each weight moves one step towards agreement
      of its history bit with the outcome, the bias one step towards the outcome. */
  function Trained(s: PerceptronState, h: History, taken: bool): (r: PerceptronState)
    requires WellFormed(s)
    ensures WellFormed(r)
    ensures forall i :: 0 <= i < HistoryLength ==> SaturatingStep(s.weights[i], r.weights[i], h[i] == taken)
    ensures SaturatingStep(s.bias, r.bias, taken)
  {
    PerceptronState(
      seq(HistoryLength, i requires 0 <= i < HistoryLength => Clamp(s.weights[i] as int + Polarity(h[i] == taken))),
      Clamp(s.bias as int + Polarity(taken)))
  }

  /** All-zero weights give a zero dot product. */
  lemma {:induction false} DotZero(w: seq<int8>, h: seq<bool>, n: nat)
    requires n <= |w| && n <= |h|
    requires forall i :: 0 <= i < n ==> w[i] == 0
    ensures Dot(w, h, n) == 0
  {
    if n > 0 {
      DotZero(w, h, n - 1);
    }
  }

  /** A freshly constructed perceptron outputs 0 for every history, so it predicts taken. */
  lemma ZeroOutput(h: History)
    ensures Output(Zero(), h) == 0
  {
    DotZero(Zero().weights, h, HistoryLength);
  }

  /** Training moves every term of the dot product towards the outcome, never away from it. */
  lemma {:induction false} DotTrainedMonotone(s: PerceptronState, h: History, taken: bool, n: nat)
    requires WellFormed(s) && n <= HistoryLength
    ensures taken ==> Dot(Trained(s, h, taken).weights, h, n) >= Dot(s.weights, h, n)
    ensures !taken ==> Dot(Trained(s, h, taken).weights, h, n) <= Dot(s.weights, h, n)
  {
    if n > 0 {
      DotTrainedMonotone(s, h, taken, n - 1);
      var r := Trained(s, h, taken);
      var i := n - 1;
      if h[i] {
        assert r.weights[i] as int * Polarity(h[i]) == r.weights[i] as int;
        assert s.weights[i] as int * Polarity(h[i]) == s.weights[i] as int;
      } else {
        assert r.weights[i] as int * Polarity(h[i]) == -(r.weights[i] as int);
        assert s.weights[i] as int * Polarity(h[i]) == -(s.weights[i] as int);
      }
    }
  }

  /** Training on an outcome never moves the output for the same history away from that
      outcome, and moves it strictly towards it while the bias is not saturated. */
  lemma TrainingMovesOutputTowardOutcome(s: PerceptronState, h: History, taken: bool)
    requires WellFormed(s)
    ensures taken ==> Output(Trained(s, h, taken), h) >= Output(s, h)
    ensures taken && s.bias as int < MaxWeight ==> Output(Trained(s, h, taken), h) > Output(s, h)
    ensures !taken ==> Output(Trained(s, h, taken), h) <= Output(s, h)
    ensures !taken && s.bias as int > MinWeight ==> Output(Trained(s, h, taken), h) < Output(s, h)
  {
    DotTrainedMonotone(s, h, taken, HistoryLength);
  }

  /** The state after training k times on the same history and outcome. */
  function TrainedTimes(s: PerceptronState, h: History, taken: bool, k: nat): (r: PerceptronState)
    requires WellFormed(s)
    ensures WellFormed(r)
  {
    if k == 0 then s else Trained(TrainedTimes(s, h, taken, k - 1), h, taken)
  }

  /** After k trainings every weight has moved exactly k steps towards agreement, stopping
      at the bound; so has the bias. */
  lemma {:induction false} TrainedTimesProgress(s: PerceptronState, h: History, taken: bool, k: nat)
    requires WellFormed(s)
    ensures var r := TrainedTimes(s, h, taken, k);
      forall i :: 0 <= i < HistoryLength ==>
        (h[i] == taken ==> r.weights[i] as int == Min(MaxWeight, s.weights[i] as int + k))
        && (h[i] != taken ==> r.weights[i] as int == Max(MinWeight, s.weights[i] as int - k))
    ensures var r := TrainedTimes(s, h, taken, k);
      (taken ==> r.bias as int == Min(MaxWeight, s.bias as int + k))
      && (!taken ==> r.bias as int == Max(MinWeight, s.bias as int - k))
  {
    if k > 0 {
      TrainedTimesProgress(s, h, taken, k - 1);
    }
  }

  /** A dot product whose every term is at least c is at least c * n. */
  lemma {:induction false} DotTermsAtLeast(w: seq<int8>, h: seq<bool>, n: nat, c: int)
    requires n <= |w| && n <= |h|
    requires forall i :: 0 <= i < n ==> w[i] as int * Polarity(h[i]) >= c
    ensures Dot(w, h, n) >= c * n
  {
    if n > 0 {
      DotTermsAtLeast(w, h, n - 1, c);
      assert c * n == c * (n - 1) + c;
    }
  }

  /** A dot product whose every term is at most c is at most c * n. */
  lemma {:induction false} DotTermsAtMost(w: seq<int8>, h: seq<bool>, n: nat, c: int)
    requires n <= |w| && n <= |h|
    requires forall i :: 0 <= i < n ==> w[i] as int * Polarity(h[i]) <= c
    ensures Dot(w, h, n) <= c * n
  {
    if n > 0 {
      DotTermsAtMost(w, h, n - 1, c);
      assert c * n == c * (n - 1) + c;
    }
  }

  /** Training 255 times on one history and outcome saturates every weight and the bias,
      whatever the starting state, and the output for that history then has magnitude
      at least 127 * 65 with the sign of the outcome. */
  lemma RepeatedTrainingSaturates(s: PerceptronState, h: History, taken: bool)
    requires WellFormed(s)
    ensures taken ==> Output(TrainedTimes(s, h, taken, 255), h) >= 127 * (HistoryLength + 1)
    ensures !taken ==> Output(TrainedTimes(s, h, taken, 255), h) <= -127 * (HistoryLength + 1)
    ensures forall i :: 0 <= i < HistoryLength ==>
      TrainedTimes(s, h, taken, 255).weights[i] as int == (if h[i] == taken then MaxWeight else MinWeight)
    ensures TrainedTimes(s, h, taken, 255).bias as int == (if taken then MaxWeight else MinWeight)
  {
    var r := TrainedTimes(s, h, taken, 255);
    TrainedTimesProgress(s, h, taken, 255);
    if taken {
      forall i | 0 <= i < HistoryLength
        ensures r.weights[i] as int * Polarity(h[i]) >= 127
      {
        if h[i] {
          assert r.weights[i] as int == MaxWeight;
        } else {
          assert r.weights[i] as int == MinWeight;
        }
      }
      DotTermsAtLeast(r.weights, h, HistoryLength, 127);
    } else {
      forall i | 0 <= i < HistoryLength
        ensures r.weights[i] as int * Polarity(h[i]) <= -127
      {
        if h[i] {
          assert r.weights[i] as int == MinWeight;
        } else {
          assert r.weights[i] as int == MaxWeight;
        }
      }
      DotTermsAtMost(r.weights, h, HistoryLength, -127);
    }
  }

  /** `perceptron` */
  class Perceptron {
    const weights: array<int8>
    var bias: int8

    ghost predicate Valid() {
      weights.Length == HistoryLength
    }

    /** The perceptron's fields as a value. */
    ghost function State(): (s: PerceptronState)
      reads this, weights
      requires Valid()
      ensures WellFormed(s)
    {
      PerceptronState(weights[..], bias)
    }

    /** `perceptron()`: every weight and the bias start at zero. */
    constructor ()
      ensures Valid() && fresh(weights)
      ensures State() == Zero()
    {
      var w := new int8[HistoryLength];
      for i := 0 to HistoryLength
        invariant forall k :: 0 <= k < i ==> w[k] == 0
      {
        w[i] := 0;
      }
      weights := w;
      bias := 0;
    }

    /** `perceptron::predict`: the dot product, accumulated in a 32-bit integer that never
        overflows; it changes nothing. */
    method Predict(h: History) returns (y: int32)
      requires Valid()
      ensures y as int == Output(State(), h)
      ensures -OutputLimit <= y as int <= OutputLimit
    {
      y := bias as int32;
      for i := 0 to HistoryLength
        invariant y as int == bias as int + Dot(weights[..], h, i)
        invariant -128 * (i + 1) <= y as int <= 128 * (i + 1)
      {
        var input: int32 := if h[i] then 1 else -1;
        y := y + weights[i] as int32 * input;
      }
    }

    /** `perceptron::train`: one saturating step of every weight and the bias. The history
        is a value, so it is left as it was. */
    method Train(h: History, taken: bool)
      requires Valid()
      modifies weights, this`bias
      ensures State() == Trained(old(State()), h, taken)
    {
      ghost var before := State();
      for i := 0 to HistoryLength
        invariant forall k :: 0 <= k < i ==> weights[k] == Clamp(old(weights[k]) as int + Polarity(h[k] == taken))
        invariant forall k :: i <= k < HistoryLength ==> weights[k] == old(weights[k])
        invariant bias == old(bias)
      {
        var correction := if h[i] == taken then 1 else -1;
        weights[i] := Clamp(weights[i] as int + correction);
      }
      bias := Clamp(bias as int + (if taken then 1 else -1));
      assert weights[..] == Trained(before, h, taken).weights;
    }
  }
}
