/**
 * `delta_uvw_delta_time` as the code runs it: the time check, the copies
 * of the antenna columns, the baseline array and its unique rows, and the
 * loop that fills a zeroed output group by group through boolean masks.
 * Each method is proved to return exactly the value `Derivative.DuvwDt`
 * describes.
 */
module Support {
  import opened Wrappers
  import opened Uvw
  import opened Baselines
  import opened Derivative

  /**
   * The loop over the unique baselines: start from a zeroed `(row, 3)`
   * output and, for each baseline in `ubl`, write its padded difference
   * quotients onto the rows its mask selects; fail as numpy does when a
   * group's padded quotients cannot be broadcast onto its rows. `ubl` may
   * list the baselines in any order (numpy sorts them) as long as it
   * covers every row's baseline.
   */
  method Differentiate(time: array<real>, keys: seq<Key>, uvw: array<Vec3>, ubl: seq<Key>, policy: LastRow)
    returns (r: Result<array<Vec3>, Error>)
    requires time.Length == |keys| == uvw.Length
    requires NonDecreasing(time[..]) && TimeStepsNonZero(time[..], keys)
    requires forall m :: 0 <= m < |keys| ==> keys[m] in ubl
    ensures r.Success? ==> fresh(r.value) && DuvwDt(time[..], keys, uvw[..], policy) == Success(r.value[..])
    ensures r.Failure? ==> DuvwDt(time[..], keys, uvw[..], policy) == Failure(r.error)
  {
    var ts, us := time[..], uvw[..];
    var out := new Vec3[|keys|](_ => Zero);
    for b := 0 to |ubl|
      invariant Filled(ts, keys, us, policy, out[..], ubl[..b])
    {
      var ok := PadBaseline(out, ts, keys, us, ubl, b, policy);
      if !ok {
        return Failure(CannotBroadcast);
      }
    }
    AllFilled(ts, keys, us, policy, out[..], ubl);
    return Success(out);
  }

  /**
   * One pass of the loop, for the baseline `ubl[b]`: select its rows,
   * difference and divide, pad the last row and write the result through
   * the mask; `false` where the padded rows cannot be broadcast, which then
   * is the outcome of the whole call.
   */
  method PadBaseline(out: array<Vec3>, ts: seq<real>, keys: seq<Key>, us: seq<Vec3>, ubl: seq<Key>, b: nat, policy: LastRow)
    returns (ok: bool)
    requires out.Length == |ts| == |keys| == |us| && NonDecreasing(ts) && TimeStepsNonZero(ts, keys) && b < |ubl|
    requires Filled(ts, keys, us, policy, out[..], ubl[..b])
    modifies out
    ensures ok ==> Filled(ts, keys, us, policy, out[..], ubl[..b + 1])
    ensures !ok ==> DuvwDt(ts, keys, us, policy) == Failure(CannotBroadcast)
    ensures ok ==> forall m :: 0 <= m < |keys| && keys[m] != ubl[b] ==> out[m] == old(out[m])
    ensures !ok ==> unchanged(out)
  {
    var k := ubl[b];
    var padded := GroupDerivative(ts, keys, us, k, policy);
    if padded.None? {
      FailingGroupHasRow(ts, keys, us, k, policy);
      UnpairedRowFails(ts, keys, us, policy, Group(keys, k)[0]);
      return false;
    }
    ghost var before := out[..];
    Scatter(out, keys, k, padded.value);
    MaskedStep(ts, keys, us, policy, ubl, b, before, out[..]);
    return true;
  }

  /**
   * `duvw_dt[mask] = padded`: the j-th row the mask of `k` selects receives
   * `vals[j]`, and every other row keeps its value.
   */
  method Scatter(out: array<Vec3>, keys: seq<Key>, k: Key, vals: seq<Vec3>)
    requires out.Length == |keys| && |vals| == |Group(keys, k)|
    modifies out
    ensures forall m :: 0 <= m < |keys| && keys[m] == k ==> out[m] == vals[Rank(keys, m)]
    ensures forall m :: 0 <= m < |keys| && keys[m] != k ==> out[m] == old(out[m])
  {
    forall m | 0 <= m < out.Length && keys[m] == k {
      out[m] := vals[Rank(keys, m)];
    }
  }

  /**
   * Every row whose baseline is among `done` lies in a group that pads and
   * holds that row's derivative in `out`.
   */
  ghost predicate Filled(ts: seq<real>, keys: seq<Key>, us: seq<Vec3>, policy: LastRow, out: seq<Vec3>, done: seq<Key>)
    requires |ts| == |keys| == |us| == |out| && TimeStepsNonZero(ts, keys)
  {
    forall m :: 0 <= m < |keys| && keys[m] in done ==>
      Paired(keys, m) && out[m] == RowDerivative(ts, keys, us, policy, m)
  }

  /**
   * Writing the padded quotients of the baseline `ubl[b]` through its mask
   * extends the baselines done from `ubl[..b]` to `ubl[..b + 1]`.
   */
  lemma {:induction false} MaskedStep(ts: seq<real>, keys: seq<Key>, us: seq<Vec3>, policy: LastRow,
                                      ubl: seq<Key>, b: nat, before: seq<Vec3>, after: seq<Vec3>)
    requires |ts| == |keys| == |us| == |before| == |after| && TimeStepsNonZero(ts, keys) && b < |ubl|
    requires Filled(ts, keys, us, policy, before, ubl[..b]) && GroupDerivative(ts, keys, us, ubl[b], policy).Some?
    requires forall m :: 0 <= m < |keys| && keys[m] == ubl[b] ==>
               after[m] == GroupDerivative(ts, keys, us, ubl[b], policy).value[Rank(keys, m)]
    requires forall m :: 0 <= m < |keys| && keys[m] != ubl[b] ==> after[m] == before[m]
    ensures Filled(ts, keys, us, policy, after, ubl[..b + 1])
  {
    forall m | 0 <= m < |keys| && keys[m] in ubl[..b + 1]
      ensures Paired(keys, m) && after[m] == RowDerivative(ts, keys, us, policy, m)
    {
      if keys[m] == ubl[b] {
        GroupDerivativeRow(ts, keys, us, policy, m);
      } else {
        var c :| 0 <= c < b + 1 && ubl[..b + 1][c] == keys[m];
        assert keys[m] in ubl[..b];
      }
    }
  }

  /** Once every row's baseline is done, the output is the whole derivative. */
  lemma {:induction false} AllFilled(ts: seq<real>, keys: seq<Key>, us: seq<Vec3>, policy: LastRow, out: seq<Vec3>, done: seq<Key>)
    requires |ts| == |keys| == |us| == |out| && NonDecreasing(ts) && TimeStepsNonZero(ts, keys)
    requires Filled(ts, keys, us, policy, out, done) && forall m :: 0 <= m < |keys| ==> keys[m] in done
    ensures DuvwDt(ts, keys, us, policy) == Success(out)
  {
    DuvwDtOfRows(ts, keys, us, policy, out);
  }

  /**
   * `delta_uvw_delta_time` as written: the time check, the canonical copies
   * (computed and then not used), rows grouped by the ordered pair
   * (antenna1, antenna2), and the last row of every group filled from
   * `res[-2:-1]`.
   */
  method DeltaUvwDeltaTime(time: array<real>, antenna1: array<int>, antenna2: array<int>, uvw: array<Vec3>)
    returns (r: Result<array<Vec3>, Error>)
    requires time.Length == antenna1.Length == antenna2.Length == uvw.Length
    requires WellFormed(time[..], Stack(antenna1[..], antenna2[..]), uvw[..])
    ensures r.Success? ==> fresh(r.value) && DuvwDt(time[..], Stack(antenna1[..], antenna2[..]), uvw[..], SecondToLastDifference) == Success(r.value[..])
    ensures r.Failure? ==> DuvwDt(time[..], Stack(antenna1[..], antenna2[..]), uvw[..], SecondToLastDifference) == Failure(r.error)
  {
    if !NonDecreasing(time[..]) {
      return Failure(TimeNotMonotonic);
    }
    var ant1, ant2 := CanonicalCopies(antenna1, antenna2);
    var baselines := Stack(antenna1[..], antenna2[..]);
    var ubl := UniqueKeys(baselines);
    r := Differentiate(time, baselines, uvw, ubl, SecondToLastDifference);
  }

  /**
   * The evidently intended computation: rows grouped by baseline with their
   * mirrors (the canonical copies `ant1`, `ant2` stacked), and the last row
   * of every group filled from `res[-1:]`.
   */
  method DeltaUvwDeltaTimeIntended(time: array<real>, antenna1: array<int>, antenna2: array<int>, uvw: array<Vec3>)
    returns (r: Result<array<Vec3>, Error>)
    requires time.Length == antenna1.Length == antenna2.Length == uvw.Length
    requires WellFormed(time[..], CanonicalKeys(antenna1[..], antenna2[..]), uvw[..])
    ensures r.Success? ==> fresh(r.value) && DuvwDt(time[..], CanonicalKeys(antenna1[..], antenna2[..]), uvw[..], LastDifference) == Success(r.value[..])
    ensures r.Failure? ==> DuvwDt(time[..], CanonicalKeys(antenna1[..], antenna2[..]), uvw[..], LastDifference) == Failure(r.error)
  {
    if !NonDecreasing(time[..]) {
      return Failure(TimeNotMonotonic);
    }
    var ant1, ant2 := CanonicalCopies(antenna1, antenna2);
    var baselines := Stack(ant1[..], ant2[..]);
    var ubl := UniqueKeys(baselines);
    r := Differentiate(time, baselines, uvw, ubl, LastDifference);
  }
}
