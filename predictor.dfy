/** The predictor facade: a global history shift register, a table of 2048
    perceptrons selected by hashing the branch address with the history, and
    a two-entry record of recent branch addresses. */
module Predictor {
  import opened Perceptrons

  const PcHistLength: nat := 2
  const NumPerceptrons: nat := 2048
  /** Training threshold `(int)(1.93 * HISTORY_LENGTH + 14)`: 137.52 truncated to 137,
      computed here in hundredths so that no floating point is involved. */
  const Theta: int := (193 * HistoryLength + 14 * 100) / 100

  /** What the harness passes to `predict`: the branch address and whether it is conditional. */
  datatype BranchInfo = BranchInfo(address: bv32, conditional: bool)

  /** What `predict` hands back to the harness. */
  datatype BranchUpdate = BranchUpdate(directionPrediction: bool, targetPrediction: bv32)

  /** What `predict` hands on to the matching `update`: the selected table index for a
      conditional branch, nothing for any other branch. */
  datatype Context = Conditional(index: nat) | Unconditional

  /** `bitset::to_ullong`: bit i of the word is element i of the history, so bit 0 is
      the newest outcome. */
  function ToWord(h: seq<bool>): (r: bv64)
    requires |h| <= 64
    ensures |h| == 0 ==> r == 0
    ensures |h| > 0 ==> (r & 1 == 1 <==> h[0])
  {
    if |h| == 0 then 0 else (ToWord(h[1..]) << 1) | (if h[0] then 1 else 0)
  }

  /** The address, widened to 64 bits, exclusive-or the history word, reduced modulo the
      table size and narrowed to an index. */
  function HashIndex(address: bv32, word: bv64): (r: nat)
    ensures r < NumPerceptrons
  {
    (((address as bv64) ^ word) % 2048) as nat
  }

  /** The perceptron `my_predictor::predict` selects for a conditional branch: the hash
      of its address with the current history word. */
  function Index(address: bv32, h: History): (r: nat)
    ensures r < NumPerceptrons
  {
    HashIndex(address, ToWord(h))
  }

  /** The history update of `my_predictor::update`: every outcome moves one place older,
      the oldest is dropped, and the new outcome becomes the newest. */
  function ShiftIn(h: History, taken: bool): (r: History)
    ensures r[0] == taken
    ensures forall i :: 1 <= i < HistoryLength ==> r[i] == h[i - 1]
  {
    ([false] + h[..HistoryLength - 1])[0 := taken]
  }

  /** The condition under which `update` trains: a misprediction, or an output whose
      magnitude is at most the threshold. */
  function ShouldTrain(output: int, taken: bool): (r: bool)
    ensures !r <==> (if taken then output > Theta else output < -Theta)
  {
    (output >= 0) != taken || (if output < 0 then -output else output) <= Theta
  }

  /** Narrowing an index word below 2048 to an integer loses nothing. */
  lemma NarrowIndex(x: bv64)
    requires x < 2048
    ensures (x as nat) as bv64 == x
  {
  }

  lemma XorSeparates(a1: bv32, a2: bv32, w: bv64)
    ensures ((a1 as bv64) ^ w) % 2048 == ((a2 as bv64) ^ w) % 2048 <==> a1 % 2048 == a2 % 2048
  {
  }

  lemma HashAgrees(a1: bv32, a2: bv32, w: bv64)
    requires a1 % 2048 == a2 % 2048
    ensures HashIndex(a1, w) == HashIndex(a2, w)
  {
    XorSeparates(a1, a2, w);
  }

  lemma HashSeparates(a1: bv32, a2: bv32, w: bv64)
    requires HashIndex(a1, w) == HashIndex(a2, w)
    ensures a1 % 2048 == a2 % 2048
  {
    NarrowIndex(((a1 as bv64) ^ w) % 2048);
    NarrowIndex(((a2 as bv64) ^ w) % 2048);
    XorSeparates(a1, a2, w);
  }

  /** For a fixed history, two addresses select the same perceptron exactly when they
      agree in their low 11 bits. */
  lemma IndexSeparatesAddresses(a1: bv32, a2: bv32, h: History)
    ensures Index(a1, h) == Index(a2, h) <==> a1 % 2048 == a2 % 2048
  {
    if a1 % 2048 == a2 % 2048 {
      HashAgrees(a1, a2, ToWord(h));
    }
    if Index(a1, h) == Index(a2, h) {
      HashSeparates(a1, a2, ToWord(h));
    }
  }

  /** `(1 << k) - 1` over 64 bits, built one bit at a time. */
  function LowMask(k: nat): bv64
    requires k <= 64
  {
    if k == 0 then 0 else (LowMask(k - 1) << 1) | 1
  }

  /** Histories that agree in their k most recent outcomes give words that agree in
      their k low bits. */
  lemma {:induction false} ToWordLowBits(h1: seq<bool>, h2: seq<bool>, k: nat)
    requires |h1| <= 64 && |h2| <= 64 && k <= |h1| && k <= |h2|
    requires h1[..k] == h2[..k]
    ensures (ToWord(h1) ^ ToWord(h2)) & LowMask(k) == 0
  {
    if k > 0 {
      assert h1[1..][..k - 1] == h1[..k][1..];
      assert h2[1..][..k - 1] == h2[..k][1..];
      ToWordLowBits(h1[1..], h2[1..], k - 1);
      assert h1[0] == h1[..k][0] && h2[0] == h2[..k][0];
    }
  }

  lemma WindowedXor(w1: bv64, w2: bv64, a1: bv64, a2: bv64)
    requires (w1 ^ w2) & 0x7FF == 0
    requires a1 % 2048 == a2 % 2048
    ensures (a1 ^ w1) % 2048 == (a2 ^ w2) % 2048
  {
  }

  lemma Widen(a1: bv32, a2: bv32)
    requires a1 % 2048 == a2 % 2048
    ensures (a1 as bv64) % 2048 == (a2 as bv64) % 2048
  {
  }

  lemma HashWindow(a1: bv32, a2: bv32, w1: bv64, w2: bv64)
    requires a1 % 2048 == a2 % 2048
    requires (w1 ^ w2) & 0x7FF == 0
    ensures HashIndex(a1, w1) == HashIndex(a2, w2)
  {
    Widen(a1, a2);
    WindowedXor(w1, w2, a1 as bv64, a2 as bv64);
  }

  /** Only the low 11 address bits and the 11 most recent outcomes select a perceptron. */
  lemma IndexWindow(a1: bv32, a2: bv32, h1: History, h2: History)
    requires a1 % 2048 == a2 % 2048
    requires h1[..11] == h2[..11]
    ensures Index(a1, h1) == Index(a2, h2)
  {
    ToWordLowBits(h1, h2, 11);
    assert LowMask(11) == 0x7FF;
    HashWindow(a1, a2, ToWord(h1), ToWord(h2));
  }

  /** The mask of the 63 low bits, evaluated eight bits at a time. */
  lemma LowMask63()
    ensures LowMask(63) == 0x7FFF_FFFF_FFFF_FFFF
  {
    assert LowMask(8) == 0xFF;
    assert LowMask(16) == 0xFFFF;
    assert LowMask(24) == 0xFF_FFFF;
    assert LowMask(32) == 0xFFFF_FFFF;
    assert LowMask(40) == 0xFF_FFFF_FFFF;
    assert LowMask(48) == 0xFFFF_FFFF_FFFF;
    assert LowMask(56) == 0xFF_FFFF_FFFF_FFFF;
  }

  lemma ShiftAgrees(x: bv64, y: bv64)
    requires (x ^ y) & LowMask(63) == 0
    ensures x << 1 == y << 1
  {
    LowMask63();
    assert (x ^ y) & 0x7FFF_FFFF_FFFF_FFFF == 0;
  }

  /** The history shift agrees with the 64-bit register: `ghist <<= 1` drops bit 63 and
      `ghist.set(0, taken)` sets bit 0. */
  lemma ShiftInMatchesRegister(h: History, taken: bool)
    ensures ToWord(ShiftIn(h, taken)) == (ToWord(h) << 1) | (if taken then 1 else 0)
  {
    var kept := h[..HistoryLength - 1];
    assert ShiftIn(h, taken) == [taken] + kept;
    ToWordCons(taken, kept);
    DroppingOldestKeepsShift(h);
  }

  lemma ToWordCons(b: bool, t: seq<bool>)
    requires |t| < 64
    ensures ToWord([b] + t) == (ToWord(t) << 1) | (if b then 1 else 0)
  {
    assert ([b] + t)[1..] == t;
  }

  /** Shifting left by one loses bit 63, so the oldest outcome does not matter to it. */
  lemma DroppingOldestKeepsShift(h: History)
    ensures ToWord(h[..HistoryLength - 1]) << 1 == ToWord(h) << 1
  {
    var kept := h[..HistoryLength - 1];
    assert kept[..63] == h[..63];
    ToWordLowBits(kept, h, 63);
    ShiftAgrees(ToWord(kept), ToWord(h));
  }

  /** A branch whose history and outcome repeat stops training its perceptron after at
      most 255 trainings: the output then exceeds THETA with the outcome's sign. */
  lemma TrainingStopsOnceSaturated(s: PerceptronState, h: History, taken: bool)
    requires WellFormed(s)
    ensures !ShouldTrain(Output(TrainedTimes(s, h, taken, 255), h), taken)
    ensures (Output(TrainedTimes(s, h, taken, 255), h) >= 0) == taken
  {
    RepeatedTrainingSaturates(s, h, taken);
  }

  /** `my_predictor` */
  class BranchPredictor {
    /** `table`: the perceptrons, each an object updated in place. */
    const table: seq<Perceptron>
    /** `pc_hist`: the most recent conditional branch addresses, newest first. */
    const pcHist: array<bv32>
    /** `ghist`: the global history, newest outcome at element 0. */
    var ghist: History

    ghost predicate Valid() {
      |table| == NumPerceptrons && pcHist.Length == PcHistLength
      && (forall i :: 0 <= i < |table| ==> table[i].Valid())
      && (forall i, j :: 0 <= i < |table| && 0 <= j < |table| && i != j ==>
            table[i] != table[j] && table[i].weights != table[j].weights)
    }

    /** The value of perceptron i. */
    ghost function Entry(i: nat): (s: PerceptronState)
      requires Valid() && i < NumPerceptrons
      reads table[i], table[i].weights
      ensures WellFormed(s)
    {
      table[i].State()
    }

    /** `my_predictor()`: 2048 zeroed perceptrons, an all-clear history, zeroed recent addresses. */
    constructor ()
      ensures Valid() && fresh(pcHist)
      ensures forall i :: 0 <= i < NumPerceptrons ==> fresh(table[i]) && fresh(table[i].weights)
      ensures forall i :: 0 <= i < NumPerceptrons ==> Entry(i) == Zero()
      ensures ghist == seq(HistoryLength, _ => false)
      ensures pcHist[..] == seq(PcHistLength, _ => 0)
    {
      var t: seq<Perceptron> := [];
      while |t| < NumPerceptrons
        invariant |t| <= NumPerceptrons
        invariant forall i :: 0 <= i < |t| ==> t[i].Valid() && fresh(t[i]) && fresh(t[i].weights)
        invariant forall i :: 0 <= i < |t| ==> t[i].State() == Zero()
        invariant forall i, j :: 0 <= i < |t| && 0 <= j < |t| && i != j ==>
                    t[i] != t[j] && t[i].weights != t[j].weights
      {
        var p := new Perceptron();
        t := t + [p];
      }
      var recent := new bv32[PcHistLength];
      for i := 0 to PcHistLength
        modifies recent
        invariant forall k :: 0 <= k < i ==> recent[k] == 0
      {
        recent[i] := 0;
      }
      table := t;
      pcHist := recent;
      ghist := seq(HistoryLength, _ => false);
    }

    /** `my_predictor::predict`. A conditional branch is predicted taken iff the selected
        perceptron's output is non-negative, and its address is pushed onto the recent
        addresses; any other branch is predicted taken and nothing changes. */
    method Predict(b: BranchInfo) returns (u: BranchUpdate, ctx: Context)
      requires Valid()
      modifies pcHist
      ensures u.targetPrediction == 0
      ensures b.conditional ==>
                ctx == Conditional(Index(b.address, ghist))
                && u.directionPrediction == (Output(Entry(ctx.index), ghist) >= 0)
                && pcHist[..] == [b.address] + old(pcHist[..])[..PcHistLength - 1]
      ensures !b.conditional ==>
                ctx == Unconditional && u.directionPrediction && pcHist[..] == old(pcHist[..])
      ensures ghist == old(ghist)
      ensures forall i :: 0 <= i < NumPerceptrons ==> Entry(i) == old(Entry(i))
    {
      if b.conditional {
        var index := Index(b.address, ghist);
        ctx := Conditional(index);
        var p := table[index];
        var output := p.Predict(ghist);
        u := BranchUpdate(output >= 0, 0);

        var i := PcHistLength - 1;
        while i > 0
          invariant 0 <= i < PcHistLength
          invariant forall k :: i < k < PcHistLength ==> pcHist[k] == old(pcHist[k - 1])
          invariant forall k :: 0 <= k <= i ==> pcHist[k] == old(pcHist[k])
        {
          pcHist[i] := pcHist[i - 1];
          i := i - 1;
        }
        pcHist[0] := b.address;
      } else {
        ctx := Unconditional;
        u := BranchUpdate(true, 0);
      }
    }

    /** `my_predictor::update`. For a conditional branch the selected perceptron is
        trained iff ShouldTrain holds of its output, and the outcome is shifted into
        the history; no other perceptron changes, and any other branch changes nothing. */
    method Update(ctx: Context, taken: bool)
      requires Valid()
      requires ctx.Conditional? ==> ctx.index < NumPerceptrons
      modifies this`ghist
      modifies if ctx.Conditional? then {table[ctx.index] as object, table[ctx.index].weights} else {}
      ensures ctx.Unconditional? ==> ghist == old(ghist)
      ensures ctx.Conditional? ==> ghist == ShiftIn(old(ghist), taken)
      ensures ctx.Conditional? ==>
                var before := old(Entry(ctx.index));
                Entry(ctx.index)
                  == if ShouldTrain(Output(before, old(ghist)), taken) then Trained(before, old(ghist), taken)
                     else before
      ensures forall i :: 0 <= i < NumPerceptrons && ctx != Conditional(i) ==> Entry(i) == old(Entry(i))
      ensures pcHist[..] == old(pcHist[..])
    {
      if ctx.Conditional? {
        var p := table[ctx.index];
        var output := p.Predict(ghist);
        var magnitude := if output < 0 then -output else output;
        if (output >= 0) != taken || magnitude as int <= Theta {
          p.Train(ghist, taken);
        }
        ghist := ShiftIn(ghist, taken);
      }
    }
  }
}
