/**
 * The value `delta_uvw_delta_time` computes, stated group by group: the
 * time check, the per-group difference quotient, the padding of the last
 * row, and the per-row result. The imperative computation in module
 * Support is proved to produce exactly this value.
 */
module Derivative {
  import opened Wrappers
  import opened Uvw
  import opened Baselines

  /** Why a call fails. */
  datatype Error =
    | TimeNotMonotonic   // the ValueError raised when some time difference is negative
    | CannotBroadcast    // numpy's ValueError when a group's padded differences do not fit its rows

  /**
   * Which difference fills the last row of a group: the code as written
   * takes `res[-2:-1]`; `res[-1:]` would take the last one.
   */
  datatype LastRow = SecondToLastDifference | LastDifference

  /** The time check: every adjacent difference is non-negative. */
  predicate NonDecreasing(time: seq<real>) {
    forall i :: 0 <= i < |time| - 1 ==> time[i] <= time[i + 1]
  }

  ghost predicate Sorted(time: seq<real>) {
    forall i, j :: 0 <= i <= j < |time| ==> time[i] <= time[j]
  }

  /** The adjacent check orders every pair of rows. */
  lemma {:induction false} NonDecreasingSorted(time: seq<real>)
    requires NonDecreasing(time)
    ensures Sorted(time)
  {
    if |time| > 1 {
      var n := |time| - 1;
      NonDecreasingSorted(time[..n]);
      forall i, j | 0 <= i <= j < |time| ensures time[i] <= time[j] {
        if j == n && i < n {
          assert time[..n][i] <= time[..n][n - 1];
        }
      }
    }
  }

  /**
   * Read off in row order, no two consecutive rows of a group carry the
   * same timestamp: exactly the condition under which none of the time
   * differences the derivative divides by is zero.
   */
  ghost predicate TimeStepsNonZero(time: seq<real>, keys: seq<Key>)
    requires |time| == |keys|
  {
    forall k :: StepsNonZero(Gather(time, Group(keys, k)))
  }

  /** No two rows of one group carry the same timestamp. */
  ghost predicate DistinctTimesInGroups(time: seq<real>, keys: seq<Key>)
    requires |time| == |keys|
  {
    forall i, j :: 0 <= i < j < |keys| && keys[i] == keys[j] ==> time[i] != time[j]
  }

  /** The entries of `s` at `rows`: what `s[mask]` selects. */
  function Gather<T>(s: seq<T>, rows: seq<nat>): (r: seq<T>)
    requires forall j :: 0 <= j < |rows| ==> rows[j] < |s|
    ensures |r| == |rows|
  {
    seq(|rows|, j requires 0 <= j < |rows| => s[rows[j]])
  }

  /** No two adjacent samples share a timestamp, so no time difference is zero. */
  predicate StepsNonZero(ts: seq<real>) {
    forall j :: 0 <= j < |ts| - 1 ==> ts[j] != ts[j + 1]
  }

  /** Timestamps distinct within every group leave no zero time step in any group. */
  lemma {:induction false} DistinctTimesSuffice(time: seq<real>, keys: seq<Key>)
    requires |time| == |keys| && DistinctTimesInGroups(time, keys)
    ensures TimeStepsNonZero(time, keys)
  {
    forall k ensures StepsNonZero(Gather(time, Group(keys, k))) {
      var g := Group(keys, k);
      GroupAscending(keys, k);
      forall j | 0 <= j < |g| - 1 ensures time[g[j]] != time[g[j + 1]] {
        assert g[j] < g[j + 1];
      }
    }
  }

  /**
   * `np.diff(uvw_sel, axis=0) / np.diff(time_sel)[:, None]`: one quotient
   * per adjacent pair of samples, so one fewer than there are samples.
   */
  function DiffQuotients(ts: seq<real>, us: seq<Vec3>): (res: seq<Vec3>)
    requires |ts| == |us| && StepsNonZero(ts)
    ensures |res| == if |ts| == 0 then 0 else |ts| - 1
  {
    if |ts| == 0 then []
    else seq(|ts| - 1, j requires 0 <= j < |ts| - 1 => Quotient(Sub(us[j + 1], us[j]), ts[j + 1] - ts[j]))
  }

  /** Right-hand side of the assignment: the differences with one more row appended, broadcast onto the group's rows. */
  function PadLastRow(res: seq<Vec3>, rows: nat, policy: LastRow): (r: Option<seq<Vec3>>)
    ensures r.Some? ==> |r.value| == rows
    ensures rows == |res| + 1 ==> (r.Some? <==> 2 <= rows)
  {
    var extra := match policy
      case SecondToLastDifference => PySlice(res, -2, -1)
      case LastDifference => PySlice(res, -1, |res|);
    Broadcast(res + extra, rows)
  }

  /**
   * Which difference quotient of its group entry `j` of a group of `n`
   * rows receives: its own for every entry but the last; for the last, the
   * one before it as written (the only one in a pair), or its own
   * predecessor's under the other policy.
   */
  function SourceEntry(n: nat, j: nat, policy: LastRow): (t: nat)
    requires 2 <= n && j < n
    ensures t + 1 < n
    ensures j < n - 1 ==> t == j
    ensures j == n - 1 && policy == LastDifference ==> t == j - 1
    ensures j == n - 1 && policy == SecondToLastDifference ==> t == if n == 2 then 0 else j - 2
  {
    if j < n - 1 then j
    else if policy == SecondToLastDifference && n >= 3 then n - 3
    else n - 2
  }

  /**
   * How the padding works out for a group of `rows` rows and its `rows - 1`
   * differences: one row cannot be filled; two rows both get the single
   * difference; from three rows on, the last row repeats difference
   * `rows - 3` as written, or `rows - 2` under the other policy.
   */
  lemma {:induction false} PadLastRowCases(res: seq<Vec3>, rows: nat, policy: LastRow)
    requires rows >= 1 && |res| == rows - 1
    ensures rows == 1 ==> PadLastRow(res, rows, policy) == None
    ensures rows == 2 ==> PadLastRow(res, rows, policy) == Some([res[0], res[0]])
    ensures rows >= 3 && policy == SecondToLastDifference ==> PadLastRow(res, rows, policy) == Some(res + [res[rows - 3]])
    ensures rows >= 3 && policy == LastDifference ==> PadLastRow(res, rows, policy) == Some(res + [res[rows - 2]])
    ensures rows >= 2 ==>
              var last := if policy == SecondToLastDifference && rows >= 3 then rows - 3 else rows - 2;
              PadLastRow(res, rows, policy) == Some(res + [res[last]])
  {
    var n := |res|;
    if rows == 2 {
      assert PySlice(res, -2, -1) == [];
      assert PySlice(res, -1, n) == res[0..1] == res;
      assert seq(2, _ => (res + [])[0]) == [res[0], res[0]];
      assert res + res == [res[0], res[0]] == res + [res[0]];
    } else if rows >= 3 {
      assert SliceBound(-2, n) == n - 2 && SliceBound(-1, n) == n - 1;
      assert PySlice(res, -2, -1) == res[n - 2..n - 1] == [res[rows - 3]];
      assert PySlice(res, -1, n) == res[n - 1..n] == [res[rows - 2]];
    }
  }

  /** Entry `j` of the padded rows is the difference its source entry names. */
  lemma {:induction false} PadLastRowEntry(res: seq<Vec3>, rows: nat, policy: LastRow, j: nat)
    requires 2 <= rows && |res| == rows - 1 && j < rows
    ensures PadLastRow(res, rows, policy).Some? && |PadLastRow(res, rows, policy).value| == rows
    ensures PadLastRow(res, rows, policy).value[j] == res[SourceEntry(rows, j, policy)]
  {
    PadLastRowCases(res, rows, policy);
  }

  /** Lines 64-70 for the group with key `k`: its time and uvw columns selected, differenced and divided. */
  function GroupQuotients(time: seq<real>, keys: seq<Key>, uvw: seq<Vec3>, k: Key): (res: seq<Vec3>)
    requires |time| == |keys| == |uvw| && TimeStepsNonZero(time, keys)
    ensures |res| == if |Group(keys, k)| == 0 then 0 else |Group(keys, k)| - 1
  {
    var g := Group(keys, k);
    DiffQuotients(Gather(time, g), Gather(uvw, g))
  }

  /** Entry `j` of the quotients is the quotient between samples `j` and `j + 1`. */
  lemma {:induction false} DiffQuotientEntry(ts: seq<real>, us: seq<Vec3>, j: nat)
    requires |ts| == |us| && StepsNonZero(ts) && j + 1 < |ts|
    ensures DiffQuotients(ts, us)[j] == Quotient(Sub(us[j + 1], us[j]), ts[j + 1] - ts[j])
  {
  }

  /** Entry `j` of a group's quotients is the quotient between its rows `j` and `j + 1`. */
  lemma {:induction false} GroupQuotientEntry(time: seq<real>, keys: seq<Key>, uvw: seq<Vec3>, k: Key, j: nat)
    requires |time| == |keys| == |uvw| && TimeStepsNonZero(time, keys)
    requires j + 1 < |Group(keys, k)|
    ensures var g := Group(keys, k); time[g[j]] != time[g[j + 1]]
    ensures var g := Group(keys, k);
      GroupQuotients(time, keys, uvw, k)[j] == Quotient(Sub(uvw[g[j + 1]], uvw[g[j]]), time[g[j + 1]] - time[g[j]])
  {
    var g := Group(keys, k);
    var ts, us := Gather(time, g), Gather(uvw, g);
    DiffQuotientEntry(ts, us, j);
    assert ts[j] == time[g[j]] && ts[j + 1] == time[g[j + 1]] && us[j] == uvw[g[j]] && us[j + 1] == uvw[g[j + 1]];
  }

  /** Lines 64-73 for the group with key `k`: its padded difference quotients, or None where numpy raises. */
  function GroupDerivative(time: seq<real>, keys: seq<Key>, uvw: seq<Vec3>, k: Key, policy: LastRow): (r: Option<seq<Vec3>>)
    requires |time| == |keys| == |uvw| && TimeStepsNonZero(time, keys)
    ensures r.Some? ==> |r.value| == |Group(keys, k)|
  {
    PadLastRow(GroupQuotients(time, keys, uvw, k), |Group(keys, k)|, policy)
  }

  /** A group that holds some row fails exactly when it holds that row alone. */
  lemma {:induction false} GroupFailsIffSingleton(time: seq<real>, keys: seq<Key>, uvw: seq<Vec3>, policy: LastRow, i: nat)
    requires |time| == |keys| == |uvw| && TimeStepsNonZero(time, keys) && i < |keys|
    ensures GroupDerivative(time, keys, uvw, keys[i], policy).None? <==> |Group(keys, keys[i])| == 1
  {
    var g := Group(keys, keys[i]);
    assert g[Rank(keys, i)] == i;
    PadLastRowCases(GroupQuotients(time, keys, uvw, keys[i]), |g|, policy);
  }

  /** Entry `j` of a group's padded quotients is the quotient its source entry names. */
  lemma {:induction false} GroupDerivativeEntry(time: seq<real>, keys: seq<Key>, uvw: seq<Vec3>, k: Key, policy: LastRow, j: nat)
    requires |time| == |keys| == |uvw| && TimeStepsNonZero(time, keys)
    requires 2 <= |Group(keys, k)| && j < |Group(keys, k)|
    ensures GroupDerivative(time, keys, uvw, k, policy).Some?
    ensures GroupDerivative(time, keys, uvw, k, policy).value[j] ==
      GroupQuotients(time, keys, uvw, k)[SourceEntry(|Group(keys, k)|, j, policy)]
  {
    PadLastRowEntry(GroupQuotients(time, keys, uvw, k), |Group(keys, k)|, policy, j);
  }

  /**
   * The two rows of the group of row `i` whose difference quotient row `i`
   * receives: entries `t` and `t + 1` of the group, `t` being the source
   * entry of the row's position.
   */
  function SourceRows(keys: seq<Key>, i: nat, policy: LastRow): (p: (nat, nat))
    requires i < |keys| && 2 <= |Group(keys, keys[i])|
    ensures p.0 < p.1 < |keys| && keys[p.0] == keys[p.1] == keys[i]
  {
    var g := Group(keys, keys[i]);
    var t := SourceEntry(|g|, Rank(keys, i), policy);
    GroupAscending(keys, keys[i]);
    (g[t], g[t + 1])
  }

  /** The two source rows of row `i` are the entries `t` and `t + 1` of its group, `t` its source entry. */
  lemma {:induction false} SourceRowsPair(keys: seq<Key>, i: nat, policy: LastRow)
    requires i < |keys| && 2 <= |Group(keys, keys[i])|
    ensures var g := Group(keys, keys[i]); var t := SourceEntry(|g|, Rank(keys, i), policy);
      SourceRows(keys, i, policy) == (g[t], g[t + 1])
  {
  }

  /** The two source rows of a row are consecutive in its group, so their timestamps differ. */
  lemma {:induction false} SourceRowsStep(time: seq<real>, keys: seq<Key>, i: nat, policy: LastRow)
    requires |time| == |keys| && TimeStepsNonZero(time, keys) && i < |keys| && 2 <= |Group(keys, keys[i])|
    ensures time[SourceRows(keys, i, policy).0] != time[SourceRows(keys, i, policy).1]
  {
    SourceRowsPair(keys, i, policy);
    var g := Group(keys, keys[i]);
    var t := SourceEntry(|g|, Rank(keys, i), policy);
    assert StepsNonZero(Gather(time, g));
    assert Gather(time, g)[t] == time[g[t]] && Gather(time, g)[t + 1] == time[g[t + 1]];
  }

  /**
   * The derivative of row `i`, a row whose group holds two rows or more:
   * the forward difference quotient between its two source rows.
   */
  function RowDerivative(time: seq<real>, keys: seq<Key>, uvw: seq<Vec3>, policy: LastRow, i: nat): (d: Vec3)
    requires |time| == |keys| == |uvw| && TimeStepsNonZero(time, keys) && i < |keys| && Paired(keys, i)
    ensures var (a, b) := SourceRows(keys, i, policy);
      time[a] != time[b] && Scale(time[b] - time[a], d) == Sub(uvw[b], uvw[a])
  {
    SourceRowsStep(time, keys, i, policy);
    var (a, b) := SourceRows(keys, i, policy);
    Quotient(Sub(uvw[b], uvw[a]), time[b] - time[a])
  }

  /** numpy pads the group of row `i` onto its rows exactly when another row shares the row's key. */
  lemma {:induction false} GroupPadsIffPartner(time: seq<real>, keys: seq<Key>, uvw: seq<Vec3>, policy: LastRow, i: nat)
    requires |time| == |keys| == |uvw| && TimeStepsNonZero(time, keys) && i < |keys|
    ensures GroupDerivative(time, keys, uvw, keys[i], policy).Some? <==> HasPartner(keys, i)
  {
    GroupFailsIffSingleton(time, keys, uvw, policy, i);
    SingletonGroup(keys, i);
  }

  /** A group that fails to pad holds exactly one row, and that row is not paired. */
  lemma {:induction false} FailingGroupHasRow(time: seq<real>, keys: seq<Key>, uvw: seq<Vec3>, k: Key, policy: LastRow)
    requires |time| == |keys| == |uvw| && TimeStepsNonZero(time, keys)
    requires GroupDerivative(time, keys, uvw, k, policy).None?
    ensures |Group(keys, k)| == 1 && keys[Group(keys, k)[0]] == k && !Paired(keys, Group(keys, k)[0])
  {
    assert 1 <= |Group(keys, k)|;
    GroupFailsIffSingleton(time, keys, uvw, policy, Group(keys, k)[0]);
  }

  /**
   * Where numpy pads a group, the row the mask selects in position
   * `Rank(keys, m)` receives exactly the derivative of row `m`.
   */
  lemma {:induction false} GroupDerivativeRow(time: seq<real>, keys: seq<Key>, uvw: seq<Vec3>, policy: LastRow, m: nat)
    requires |time| == |keys| == |uvw| && TimeStepsNonZero(time, keys) && m < |keys|
    requires GroupDerivative(time, keys, uvw, keys[m], policy).Some?
    ensures Paired(keys, m)
    ensures GroupDerivative(time, keys, uvw, keys[m], policy).value[Rank(keys, m)] == RowDerivative(time, keys, uvw, policy, m)
  {
    GroupFailsIffSingleton(time, keys, uvw, policy, m);
    assert Group(keys, keys[m])[Rank(keys, m)] == m;
    GroupDerivativeEntry(time, keys, uvw, keys[m], policy, Rank(keys, m));
    RowDerivativeQuotient(time, keys, uvw, policy, m);
  }

  /** The derivative of row `m` is the group quotient that the row's position in its group takes its value from. */
  lemma {:induction false} RowDerivativeQuotient(time: seq<real>, keys: seq<Key>, uvw: seq<Vec3>, policy: LastRow, m: nat)
    requires |time| == |keys| == |uvw| && TimeStepsNonZero(time, keys) && m < |keys| && Paired(keys, m)
    ensures RowDerivative(time, keys, uvw, policy, m) ==
      GroupQuotients(time, keys, uvw, keys[m])[SourceEntry(|Group(keys, keys[m])|, Rank(keys, m), policy)]
  {
    var t := SourceEntry(|Group(keys, keys[m])|, Rank(keys, m), policy);
    GroupQuotientEntry(time, keys, uvw, keys[m], t);
    SourceRowsPair(keys, m, policy);
  }

  /** What the caller must supply: one time, key and uvw row per row, and (once time passes the check) no zero time step within a group. */
  ghost predicate WellFormed(time: seq<real>, keys: seq<Key>, uvw: seq<Vec3>) {
    |time| == |keys| == |uvw| && (NonDecreasing(time) ==> TimeStepsNonZero(time, keys))
  }

  /**
   * The result of `delta_uvw_delta_time` on rows grouped by `keys`: the time
   * check first, then a failure if the group of some row holds that row
   * alone, else one derivative per row in the input's row order.
   */
  ghost function DuvwDt(time: seq<real>, keys: seq<Key>, uvw: seq<Vec3>, policy: LastRow): (r: Result<seq<Vec3>, Error>)
    requires WellFormed(time, keys, uvw)
    ensures r.Success? ==> NonDecreasing(time) && |r.value| == |keys|
    ensures r.Failure? ==> (r.error == TimeNotMonotonic <==> !NonDecreasing(time))
  {
    if !NonDecreasing(time) then Failure(TimeNotMonotonic)
    else if exists i :: 0 <= i < |keys| && !Paired(keys, i) then Failure(CannotBroadcast)
    else Success(seq(|keys|, i requires 0 <= i < |keys| => RowDerivative(time, keys, uvw, policy, i)))
  }

  /** A successful call passed the time check, found two rows or more in the group of every row, and gives each row its `RowDerivative`. */
  lemma {:induction false} DuvwDtRow(time: seq<real>, keys: seq<Key>, uvw: seq<Vec3>, policy: LastRow, i: nat)
    requires WellFormed(time, keys, uvw) && DuvwDt(time, keys, uvw, policy).Success? && i < |keys|
    ensures NonDecreasing(time) && TimeStepsNonZero(time, keys)
    ensures Paired(keys, i)
    ensures |DuvwDt(time, keys, uvw, policy).value| == |keys|
    ensures DuvwDt(time, keys, uvw, policy).value[i] == RowDerivative(time, keys, uvw, policy, i)
  {
  }

  /** Past the time check, a single row whose group holds it alone makes the call fail. */
  lemma {:induction false} UnpairedRowFails(time: seq<real>, keys: seq<Key>, uvw: seq<Vec3>, policy: LastRow, i: nat)
    requires WellFormed(time, keys, uvw) && NonDecreasing(time) && i < |keys| && !Paired(keys, i)
    ensures DuvwDt(time, keys, uvw, policy) == Failure(CannotBroadcast)
  {
  }

  /** A sequence holding the derivative of every row, every row being paired, is what a call past the time check returns. */
  lemma {:induction false} DuvwDtOfRows(time: seq<real>, keys: seq<Key>, uvw: seq<Vec3>, policy: LastRow, out: seq<Vec3>)
    requires |time| == |keys| == |uvw| == |out| && NonDecreasing(time) && TimeStepsNonZero(time, keys)
    requires forall m :: 0 <= m < |keys| ==> Paired(keys, m)
    requires forall m :: 0 <= m < |keys| ==> out[m] == RowDerivative(time, keys, uvw, policy, m)
    ensures DuvwDt(time, keys, uvw, policy) == Success(out)
  {
    assert DuvwDt(time, keys, uvw, policy).value == out;
  }

  /** The row of a successful call is the forward difference quotient between its two source rows. */
  lemma {:induction false} RowValue(time: seq<real>, keys: seq<Key>, uvw: seq<Vec3>, policy: LastRow, i: nat)
    requires WellFormed(time, keys, uvw) && DuvwDt(time, keys, uvw, policy).Success? && i < |keys|
    ensures 2 <= |Group(keys, keys[i])|
    ensures var (a, b) := SourceRows(keys, i, policy); time[a] != time[b]
    ensures var (a, b) := SourceRows(keys, i, policy);
      DuvwDt(time, keys, uvw, policy).value[i] == Quotient(Sub(uvw[b], uvw[a]), time[b] - time[a])
  {
    DuvwDtRow(time, keys, uvw, policy, i);
    SourceRowsStep(time, keys, i, policy);
  }

  /**
   * The call succeeds exactly when time passes the check and every row
   * shares its key with some other row; it then returns one row per input
   * row. Otherwise it fails with the time error first.
   */
  lemma {:induction false} SucceedsIff(time: seq<real>, keys: seq<Key>, uvw: seq<Vec3>, policy: LastRow)
    requires WellFormed(time, keys, uvw)
    ensures DuvwDt(time, keys, uvw, policy).Success? <==>
      NonDecreasing(time) && forall i :: 0 <= i < |keys| ==> HasPartner(keys, i)
    ensures DuvwDt(time, keys, uvw, policy).Success? ==> |DuvwDt(time, keys, uvw, policy).value| == |uvw|
    ensures DuvwDt(time, keys, uvw, policy).Failure? ==>
      DuvwDt(time, keys, uvw, policy).error == if NonDecreasing(time) then CannotBroadcast else TimeNotMonotonic
  {
    forall i | 0 <= i < |keys| ensures HasPartner(keys, i) <==> Paired(keys, i) {
      PartnerGroupSize(keys, i);
    }
  }

  /** A single decreasing adjacent pair of times makes the call fail before anything else. */
  lemma {:induction false} DecreasingTimeFails(time: seq<real>, keys: seq<Key>, uvw: seq<Vec3>, policy: LastRow, i: nat)
    requires WellFormed(time, keys, uvw)
    requires i + 1 < |time| && time[i + 1] < time[i]
    ensures DuvwDt(time, keys, uvw, policy) == Failure(TimeNotMonotonic)
  {
  }

  /**
   * A row followed later by another row of its group gets the forward
   * difference quotient towards the nearest such row.
   */
  lemma {:induction false} NonFinalRow(time: seq<real>, keys: seq<Key>, uvw: seq<Vec3>, policy: LastRow, i: nat, next: nat)
    requires WellFormed(time, keys, uvw) && DuvwDt(time, keys, uvw, policy).Success?
    requires i < next < |keys| && Consecutive(keys, i, next)
    ensures time[i] < time[next]
    ensures DuvwDt(time, keys, uvw, policy).value[i] == Quotient(Sub(uvw[next], uvw[i]), time[next] - time[i])
  {
    RowValue(time, keys, uvw, policy, i);
    NextInGroup(keys, i, next);
    NonDecreasingSorted(time);
  }

  /**
   * As written, the final row of a group of three or more rows repeats the
   * derivative of the row two places before it (rows p, q, last consecutive in the group).
   */
  lemma {:induction false} FinalRowRepeatsSecondToLast(time: seq<real>, keys: seq<Key>, uvw: seq<Vec3>, p: nat, q: nat, last: nat)
    requires WellFormed(time, keys, uvw) && DuvwDt(time, keys, uvw, SecondToLastDifference).Success?
    requires p < q < last < |keys| && Consecutive(keys, p, q) && Consecutive(keys, q, last) && EndsGroup(keys, last)
    ensures time[p] < time[q]
    ensures var out := DuvwDt(time, keys, uvw, SecondToLastDifference).value;
      out[last] == out[p] == Quotient(Sub(uvw[q], uvw[p]), time[q] - time[p])
  {
    NextInGroup(keys, p, q);
    NextInGroup(keys, q, last);
    LastInGroup(keys, last);
    RowValue(time, keys, uvw, SecondToLastDifference, p);
    RowValue(time, keys, uvw, SecondToLastDifference, last);
    NonDecreasingSorted(time);
  }

  /** A group of exactly two rows gives both of them the one difference quotient between them. */
  lemma {:induction false} PairSharesQuotient(time: seq<real>, keys: seq<Key>, uvw: seq<Vec3>, policy: LastRow, first: nat, last: nat)
    requires WellFormed(time, keys, uvw) && DuvwDt(time, keys, uvw, policy).Success?
    requires first < last < |keys| && keys[first] == keys[last]
    requires forall m :: 0 <= m < |keys| && m != first && m != last ==> keys[m] != keys[first]
    ensures time[first] < time[last]
    ensures var out := DuvwDt(time, keys, uvw, policy).value;
      out[first] == out[last] == Quotient(Sub(uvw[last], uvw[first]), time[last] - time[first])
  {
    FirstInGroup(keys, first);
    NextInGroup(keys, first, last);
    LastInGroup(keys, last);
    RowValue(time, keys, uvw, policy, first);
    RowValue(time, keys, uvw, policy, last);
    NonDecreasingSorted(time);
  }

  /** Under the `res[-1:]` policy the final row of a group gets the backward quotient from the row before it. */
  lemma {:induction false} FinalRowBackwardQuotient(time: seq<real>, keys: seq<Key>, uvw: seq<Vec3>, q: nat, last: nat)
    requires WellFormed(time, keys, uvw) && DuvwDt(time, keys, uvw, LastDifference).Success?
    requires q < last < |keys| && Consecutive(keys, q, last) && EndsGroup(keys, last)
    ensures time[q] < time[last]
    ensures DuvwDt(time, keys, uvw, LastDifference).value[last] == Quotient(Sub(uvw[last], uvw[q]), time[last] - time[q])
  {
    NextInGroup(keys, q, last);
    LastInGroup(keys, last);
    RowValue(time, keys, uvw, LastDifference, last);
    NonDecreasingSorted(time);
  }

  /** Row `m` samples, at its time, a motion that starts at `origin` and moves at `rate`. */
  ghost predicate OnTrack(time: seq<real>, uvw: seq<Vec3>, m: nat, origin: Vec3, rate: Vec3)
    requires m < |time| == |uvw|
  {
    uvw[m] == Add(origin, Scale(time[m], rate))
  }

  /** Two samples of a motion at constant rate, taken at different times, have that rate as their quotient. */
  lemma {:induction false} QuotientOfSamples(ua: Vec3, ub: Vec3, ta: real, tb: real, origin: Vec3, rate: Vec3)
    requires ta != tb
    requires ua == Add(origin, Scale(ta, rate)) && ub == Add(origin, Scale(tb, rate))
    ensures Quotient(Sub(ub, ua), tb - ta) == rate
  {
    QuotientOfConstantRate(origin, rate, ta, tb);
  }

  /** A row of a baseline that moves at a constant rate gets that rate, whichever difference fills the last row. */
  lemma {:induction false} ConstantRateRow(time: seq<real>, keys: seq<Key>, uvw: seq<Vec3>, policy: LastRow,
                                           origin: Vec3, rate: Vec3, i: nat)
    requires |time| == |keys| == |uvw| && TimeStepsNonZero(time, keys) && i < |keys|
    requires Paired(keys, i)
    requires forall m :: 0 <= m < |keys| && keys[m] == keys[i] ==> OnTrack(time, uvw, m, origin, rate)
    ensures RowDerivative(time, keys, uvw, policy, i) == rate
  {
    SourceRowsStep(time, keys, i, policy);
    var (a, b) := SourceRows(keys, i, policy);
    assert OnTrack(time, uvw, a, origin, rate) && OnTrack(time, uvw, b, origin, rate);
    QuotientOfSamples(uvw[a], uvw[b], time[a], time[b], origin, rate);
  }

  /**
   * Where every baseline moves at a constant rate, each row's derivative is
   * its baseline's rate, whichever difference fills the last row.
   */
  lemma {:induction false} ConstantRateRecovered(time: seq<real>, keys: seq<Key>, uvw: seq<Vec3>, policy: LastRow,
                                                 origin: Key -> Vec3, rate: Key -> Vec3)
    requires WellFormed(time, keys, uvw) && DuvwDt(time, keys, uvw, policy).Success?
    requires forall i :: 0 <= i < |keys| ==> uvw[i] == Add(origin(keys[i]), Scale(time[i], rate(keys[i])))
    ensures forall i :: 0 <= i < |keys| ==> DuvwDt(time, keys, uvw, policy).value[i] == rate(keys[i])
  {
    forall i | 0 <= i < |keys| ensures DuvwDt(time, keys, uvw, policy).value[i] == rate(keys[i]) {
      DuvwDtRow(time, keys, uvw, policy, i);
      forall m | 0 <= m < |keys| && keys[m] == keys[i] ensures OnTrack(time, uvw, m, origin(keys[i]), rate(keys[i])) {
      }
      ConstantRateRow(time, keys, uvw, policy, origin(keys[i]), rate(keys[i]), i);
    }
  }
}
