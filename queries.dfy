/**
 * The one query shape the application relies on: `Model.query.filter(p).first()`,
 * which yields some row that satisfies `p`, or nothing. Without an `order_by` the
 * database does not fix which matching row comes first; this model takes the one
 * inserted earliest.
 */
module Queries {
  import opened Wrappers

  /** Index of the first row of `rows` that satisfies `p`, or `None` when no row does. */
  function FirstWhere<T>(rows: seq<T>, p: T -> bool): (r: Option<nat>)
    ensures r.None? <==> forall i :: 0 <= i < |rows| ==> !p(rows[i])
    ensures r.Some? ==> r.value < |rows| && p(rows[r.value])
    ensures r.Some? ==> forall i :: 0 <= i < r.value ==> !p(rows[i])
  {
    if |rows| == 0 then None
    else if p(rows[0]) then Some(0)
    else match FirstWhere(rows[1..], p)
      case None => None
      case Some(i) => Some(i + 1)
  }
}
