/** The `.first()` of a filtered query: the first row, in table order, that
    the filter selects. */
module Query {
  import opened Wrappers

  function FindFirst<T>(rows: seq<T>, p: T -> bool): (r: Option<nat>)
    ensures r.Some? ==> r.value < |rows| && p(rows[r.value])
    ensures r.Some? ==> forall j | 0 <= j < r.value :: !p(rows[j])
    ensures r.None? <==> forall j | 0 <= j < |rows| :: !p(rows[j])
  {
    if rows == [] then None
    else if p(rows[0]) then Some(0)
    else
      var rest := FindFirst(rows[1..], p);
      if rest.Some? then Some(rest.value + 1) else None
  }

  /** Row `i` is the one found when it is selected and no row before it is. */
  lemma FindFirstAt<T>(rows: seq<T>, p: T -> bool, i: nat)
    requires i < |rows| && p(rows[i])
    requires forall j | 0 <= j < i :: !p(rows[j])
    ensures FindFirst(rows, p) == Some(i)
  {
  }
}
