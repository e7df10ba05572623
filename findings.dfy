/**
 * Two places where `delta_uvw_delta_time` as written departs from what its
 * documentation promises, each shown on a concrete input, next to the
 * corrected computation (`Support.DeltaUvwDeltaTimeIntended`) on the same
 * input and a general property of the correction.
 */
module Findings {
  import opened Wrappers
  import opened Uvw
  import opened Baselines
  import opened Derivative

  // Four samples of baseline (0, 1) moving at rate (1, 2, 3); the third is
  // recorded as its mirror (1, 0).
  const MirrorTime: seq<real> := [0.0, 1.0, 2.0, 3.0]
  const MirrorAntenna1: seq<int> := [0, 0, 1, 0]
  const MirrorAntenna2: seq<int> := [1, 1, 0, 1]
  const MirrorUvw: seq<Vec3> := [Vec3(0.0, 0.0, 0.0), Vec3(1.0, 2.0, 3.0), Vec3(2.0, 4.0, 6.0), Vec3(3.0, 6.0, 9.0)]
  const MirrorRate := Vec3(1.0, 2.0, 3.0)

  /**
   * As written, the baselines are stacked from the original antenna columns,
   * so the mirrored row forms a group of its own and the call raises,
   * although its baseline has three other samples.
   */
  lemma MirrorRowFailsAsWritten()
    ensures WellFormed(MirrorTime, Stack(MirrorAntenna1, MirrorAntenna2), MirrorUvw)
    ensures DuvwDt(MirrorTime, Stack(MirrorAntenna1, MirrorAntenna2), MirrorUvw, SecondToLastDifference)
              == Failure(CannotBroadcast)
  {
    var keys := Stack(MirrorAntenna1, MirrorAntenna2);
    assert keys == [(0, 1), (0, 1), (1, 0), (0, 1)];
    DistinctTimesSuffice(MirrorTime, keys);
    PartnerGroupSize(keys, 2);
    UnpairedRowFails(MirrorTime, keys, MirrorUvw, SecondToLastDifference, 2);
  }

  /**
   * Grouped with canonical keys, the mirrored row joins its baseline and
   * every row receives the baseline's rate.
   */
  lemma MirrorRowJoinsIntended()
    ensures WellFormed(MirrorTime, CanonicalKeys(MirrorAntenna1, MirrorAntenna2), MirrorUvw)
    ensures DuvwDt(MirrorTime, CanonicalKeys(MirrorAntenna1, MirrorAntenna2), MirrorUvw, LastDifference)
              == Success([MirrorRate, MirrorRate, MirrorRate, MirrorRate])
  {
    var keys := CanonicalKeys(MirrorAntenna1, MirrorAntenna2);
    assert keys == [(0, 1), (0, 1), (0, 1), (0, 1)];
    MirrorRates(keys);
  }

  /** On one baseline moving at `MirrorRate`, every row receives that rate. */
  lemma MirrorRates(keys: seq<Key>)
    requires keys == [(0, 1), (0, 1), (0, 1), (0, 1)]
    ensures WellFormed(MirrorTime, keys, MirrorUvw)
    ensures DuvwDt(MirrorTime, keys, MirrorUvw, LastDifference) == Success([MirrorRate, MirrorRate, MirrorRate, MirrorRate])
  {
    MirrorGroup(keys);
    var origin: Key -> Vec3 := _ => Zero;
    var rate: Key -> Vec3 := _ => MirrorRate;
    forall i | 0 <= i < 4 ensures MirrorUvw[i] == Add(origin(keys[i]), Scale(MirrorTime[i], rate(keys[i]))) {
      MirrorOnTrack(i);
    }
    ConstantRateRecovered(MirrorTime, keys, MirrorUvw, LastDifference, origin, rate);
    var out := DuvwDt(MirrorTime, keys, MirrorUvw, LastDifference).value;
    assert out == [MirrorRate, MirrorRate, MirrorRate, MirrorRate];
  }

  /** With all four rows on one baseline, every row is paired and the call succeeds. */
  lemma MirrorGroup(keys: seq<Key>)
    requires keys == [(0, 1), (0, 1), (0, 1), (0, 1)]
    ensures WellFormed(MirrorTime, keys, MirrorUvw)
    ensures DuvwDt(MirrorTime, keys, MirrorUvw, LastDifference).Success?
  {
    DistinctTimesSuffice(MirrorTime, keys);
    forall i | 0 <= i < 4 ensures Paired(keys, i) {
      PartnerGroupSize(keys, i);
      assert keys[if i == 0 then 1 else 0] == keys[i];
    }
  }

  /** The mirror samples lie on the line through the origin at rate `MirrorRate`. */
  lemma MirrorOnTrack(i: nat)
    requires i < 4
    ensures MirrorUvw[i] == Add(Zero, Scale(MirrorTime[i], MirrorRate))
  {
  }

  /**
   * With canonical keys the result does not depend on which antenna of a
   * row is written first: any row may be recorded as its mirror.
   */
  lemma {:induction false} IntendedMirrorInvariant(time: seq<real>, a1: seq<int>, a2: seq<int>, b1: seq<int>, b2: seq<int>,
                                                   uvw: seq<Vec3>, policy: LastRow)
    requires |time| == |a1| == |a2| == |b1| == |b2| == |uvw|
    requires forall i :: 0 <= i < |a1| ==> (b1[i] == a1[i] && b2[i] == a2[i]) || (b1[i] == a2[i] && b2[i] == a1[i])
    requires WellFormed(time, CanonicalKeys(a1, a2), uvw)
    ensures WellFormed(time, CanonicalKeys(b1, b2), uvw)
    ensures DuvwDt(time, CanonicalKeys(a1, a2), uvw, policy) == DuvwDt(time, CanonicalKeys(b1, b2), uvw, policy)
  {
    CanonicalKeysMirrorInvariant(a1, a2, b1, b2);
  }

  // Three samples of one baseline whose rate changes from 1 to 2 per unit time.
  const TurnTime: seq<real> := [0.0, 1.0, 2.0]
  const TurnAntenna1: seq<int> := [0, 0, 0]
  const TurnAntenna2: seq<int> := [1, 1, 1]
  const TurnUvw: seq<Vec3> := [Vec3(0.0, 0.0, 0.0), Vec3(1.0, 1.0, 1.0), Vec3(3.0, 3.0, 3.0)]

  /** The three turn rows form one group, consecutive in row order and ending at row 2. */
  lemma TurnGroup(keys: seq<Key>)
    requires keys == [(0, 1), (0, 1), (0, 1)]
    ensures WellFormed(TurnTime, keys, TurnUvw)
    ensures Consecutive(keys, 0, 1) && Consecutive(keys, 1, 2) && EndsGroup(keys, 2)
    ensures forall i :: 0 <= i < 3 ==> Paired(keys, i)
  {
    DistinctTimesSuffice(TurnTime, keys);
    forall i | 0 <= i < 3 ensures Paired(keys, i) {
      PartnerGroupSize(keys, i);
      assert keys[if i == 0 then 1 else 0] == keys[i];
    }
  }

  /**
   * As written (`res[-2:-1]`), the last row repeats the first difference,
   * (1, 1, 1), while the last difference of the samples is (2, 2, 2).
   */
  lemma LastRowRepeatsAsWritten()
    ensures WellFormed(TurnTime, Stack(TurnAntenna1, TurnAntenna2), TurnUvw)
    ensures DuvwDt(TurnTime, Stack(TurnAntenna1, TurnAntenna2), TurnUvw, SecondToLastDifference).Success?
    ensures DuvwDt(TurnTime, Stack(TurnAntenna1, TurnAntenna2), TurnUvw, SecondToLastDifference).value[2]
              == Vec3(1.0, 1.0, 1.0)
    ensures Quotient(Sub(TurnUvw[2], TurnUvw[1]), TurnTime[2] - TurnTime[1]) == Vec3(2.0, 2.0, 2.0)
  {
    var keys := Stack(TurnAntenna1, TurnAntenna2);
    assert keys == [(0, 1), (0, 1), (0, 1)];
    TurnGroup(keys);
    FinalRowRepeatsSecondToLast(TurnTime, keys, TurnUvw, 0, 1, 2);
  }

  /** Under `res[-1:]` the last row receives the last difference, (2, 2, 2). */
  lemma LastRowBackwardIntended()
    ensures WellFormed(TurnTime, CanonicalKeys(TurnAntenna1, TurnAntenna2), TurnUvw)
    ensures DuvwDt(TurnTime, CanonicalKeys(TurnAntenna1, TurnAntenna2), TurnUvw, LastDifference).Success?
    ensures DuvwDt(TurnTime, CanonicalKeys(TurnAntenna1, TurnAntenna2), TurnUvw, LastDifference).value[2]
              == Vec3(2.0, 2.0, 2.0)
  {
    var keys := CanonicalKeys(TurnAntenna1, TurnAntenna2);
    assert keys == [(0, 1), (0, 1), (0, 1)];
    TurnGroup(keys);
    FinalRowBackwardQuotient(TurnTime, keys, TurnUvw, 1, 2);
  }
}
