/** Shared vocabulary: optional values and the two shapes of query the hub runs against its tables. */
module Common {

  datatype Option<+T> = None | Some(value: T)

  datatype Severity = Critical | High | Medium | Low | Unknown

  /** One counter per severity. */
  datatype Counts = Counts(critical: nat, high: nat, medium: nat, low: nat, unknown: nat)

  /** Status of a finding or misconfiguration. */
  datatype Status = Active | Fixed | Accepted | FalsePositive

  const DAY := 86400

  /** A table inside a session: all work done, or stopped by an error with part of it done. */
  datatype Session<T> = Done(rows: seq<T>) | Stuck(rows: seq<T>)

  /** Outcome of a lookup that insists on at most one row. */
  datatype Lookup = NoRow | OneRow(row: nat) | ManyRows

  /** SELECT ... WHERE p: the positions of the matching rows, in table order. */
  function Select<T>(rows: seq<T>, p: T -> bool): (ix: seq<nat>)
    ensures forall k :: 0 <= k < |ix| ==> ix[k] < |rows| && p(rows[ix[k]])
    ensures forall i :: 0 <= i < |rows| && p(rows[i]) ==> i in ix
    ensures forall k, l :: 0 <= k < l < |ix| ==> ix[k] < ix[l]
  {
    if rows == [] then
      []
    else
      var n := |rows| - 1;
      var front := Select(rows[..n], p);
      assert forall i :: 0 <= i < n ==> rows[..n][i] == rows[i];
      if p(rows[n]) then front + [n] else front
  }

  /** scalar_one_or_none(): no row, the only row, or an error when several rows match. */
  function ScalarOneOrNone<T>(rows: seq<T>, p: T -> bool): (r: Lookup)
    ensures r.NoRow? <==> forall i :: 0 <= i < |rows| ==> !p(rows[i])
    ensures r.OneRow? ==> r.row < |rows| && p(rows[r.row])
    ensures r.OneRow? ==> forall i :: 0 <= i < |rows| && p(rows[i]) ==> i == r.row
    ensures r.ManyRows? <==> exists i, j :: 0 <= i < j < |rows| && p(rows[i]) && p(rows[j])
  {
    var ix := Select(rows, p);
    if |ix| == 0 then
      NoRow
    else if |ix| == 1 then
      assert ix == [ix[0]];
      OneRow(ix[0])
    else
      assert ix[0] < ix[1];
      ManyRows
  }

  function Bump(n: Counts, s: Severity): Counts {
    match s
    case Critical => n.(critical := n.critical + 1)
    case High => n.(high := n.high + 1)
    case Medium => n.(medium := n.medium + 1)
    case Low => n.(low := n.low + 1)
    case Unknown => n.(unknown := n.unknown + 1)
  }
}
