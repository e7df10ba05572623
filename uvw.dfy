/**
 * One row of a `(row, 3)` uvw array, and the effect of the few numpy
 * operations the derivative relies on: a Python slice with negative
 * bounds, and the broadcast rule of a boolean-mask assignment.
 */
module Uvw {
  import opened Wrappers

  /** The three spatial-frequency coordinates of one row. */
  datatype Vec3 = Vec3(u: real, v: real, w: real)

  /** The row `np.zeros_like` fills the output with. */
  const Zero := Vec3(0.0, 0.0, 0.0)

  function Add(a: Vec3, b: Vec3): Vec3 {
    Vec3(a.u + b.u, a.v + b.v, a.w + b.w)
  }

  function Sub(a: Vec3, b: Vec3): Vec3 {
    Vec3(a.u - b.u, a.v - b.v, a.w - b.w)
  }

  function Scale(c: real, a: Vec3): Vec3 {
    Vec3(c * a.u, c * a.v, c * a.w)
  }

  /**
   * A uvw difference divided, componentwise, by a time difference (written
   * as a product with `1 / dt`, which is the same real number).
   */
  function Quotient(du: Vec3, dt: real): (q: Vec3)
    requires dt != 0.0
    ensures Scale(dt, q) == du
  {
    var inv := 1.0 / dt;
    Vec3(du.u * inv, du.v * inv, du.w * inv)
  }

  /** The difference quotient between two samples of a motion at constant rate is that rate. */
  lemma {:induction false} QuotientOfConstantRate(origin: Vec3, rate: Vec3, t0: real, t1: real)
    requires t0 != t1
    ensures Quotient(Sub(Add(origin, Scale(t1, rate)), Add(origin, Scale(t0, rate))), t1 - t0) == rate
  {
    var dt := t1 - t0;
    assert (t1 * rate.u - t0 * rate.u) == dt * rate.u;
    assert (t1 * rate.v - t0 * rate.v) == dt * rate.v;
    assert (t1 * rate.w - t0 * rate.w) == dt * rate.w;
  }

  /** Where a Python slice bound lands in a sequence of length `len`: negative counts from the end, then clamped. */
  function SliceBound(i: int, len: nat): (b: nat)
    ensures b <= len
    ensures 0 <= i <= len ==> b == i
    ensures i < 0 && len + i >= 0 ==> b == len + i
  {
    if i < 0 then (if len + i < 0 then 0 else len + i)
    else if i > len then len
    else i
  }

  /** `s[start:stop]` with Python's rules for negative and out-of-range bounds. */
  function PySlice<T>(s: seq<T>, start: int, stop: int): (r: seq<T>)
    ensures |r| <= |s|
    ensures 0 <= start <= stop <= |s| ==> r == s[start..stop]
    ensures -|s| <= start <= stop < 0 ==> r == s[|s| + start..|s| + stop]
    ensures 0 <= stop <= start ==> r == []
  {
    var a, b := SliceBound(start, |s|), SliceBound(stop, |s|);
    if a < b then s[a..b] else []
  }

  /**
   * numpy's rule for `out[mask] = vals` where the mask selects `rows` rows:
   * the value rows must match the selected rows one for one, or be a single
   * row copied onto all of them; anything else raises.
   */
  function Broadcast<T>(vals: seq<T>, rows: nat): (r: Option<seq<T>>)
    ensures r.Some? <==> |vals| == rows || |vals| == 1
    ensures r.Some? ==> |r.value| == rows
    ensures r.Some? ==> forall j :: 0 <= j < rows ==> r.value[j] == if |vals| == rows then vals[j] else vals[0]
  {
    if |vals| == rows then Some(vals)
    else if |vals| == 1 then Some(seq(rows, _ => vals[0]))
    else None
  }
}
