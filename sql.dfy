/**
 * The part of SQL's three-valued logic the queries rely on: comparisons and
 * arithmetic on nullable values yield NULL when an operand is NULL, AND/OR
 * follow Kleene's truth tables, and `CASE WHEN c THEN TRUE ELSE FALSE END`
 * takes the ELSE branch when `c` is NULL.
 */
module Sql {
  import opened Wrappers

  /** A nullable SQL boolean; `None` is UNKNOWN. */
  type Bool3 = Option<bool>

  /** Kleene conjunction: FALSE wins over UNKNOWN. */
  function And(a: Bool3, b: Bool3): (r: Bool3)
    ensures r == Some(true) <==> a == Some(true) && b == Some(true)
    ensures r == Some(false) <==> a == Some(false) || b == Some(false)
  {
    if a == Some(false) || b == Some(false) then Some(false)
    else if a == Some(true) && b == Some(true) then Some(true)
    else None
  }

  /** Kleene disjunction: TRUE wins over UNKNOWN. */
  function Or(a: Bool3, b: Bool3): (r: Bool3)
    ensures r == Some(true) <==> a == Some(true) || b == Some(true)
    ensures r == Some(false) <==> a == Some(false) && b == Some(false)
  {
    if a == Some(true) || b == Some(true) then Some(true)
    else if a == Some(false) && b == Some(false) then Some(false)
    else None
  }

  /** `CASE WHEN c THEN TRUE ELSE FALSE END`: only a TRUE condition selects the THEN branch. */
  predicate When(c: Bool3) {
    c == Some(true)
  }

  /** `a IS NOT NULL` */
  predicate IsNotNull<T>(a: Option<T>) {
    a.Some?
  }

  function Gt(a: Option<real>, b: Option<real>): (r: Bool3)
    ensures r.Some? <==> a.Some? && b.Some?
    ensures r == Some(true) <==> a.Some? && b.Some? && a.value > b.value
  {
    if a.Some? && b.Some? then Some(a.value > b.value) else None
  }

  function Lt(a: Option<real>, b: Option<real>): (r: Bool3)
    ensures r.Some? <==> a.Some? && b.Some?
    ensures r == Some(true) <==> a.Some? && b.Some? && a.value < b.value
  {
    if a.Some? && b.Some? then Some(a.value < b.value) else None
  }

  /** String equality; NULL on either side gives UNKNOWN, never TRUE. */
  function Eq(a: Option<string>, b: Option<string>): (r: Bool3)
    ensures r == Some(true) <==> a.Some? && a == b
  {
    if a.Some? && b.Some? then Some(a.value == b.value) else None
  }

  /** Boolean equality, as in `on_ground = FALSE`. */
  function EqBool(a: Option<bool>, b: bool): (r: Bool3)
    ensures r == Some(true) <==> a == Some(b)
  {
    match a
    case Some(x) => Some(x == b)
    case None => None
  }

  function AbsReal(x: real): (r: real)
    ensures r >= 0.0 && (r == x || r == -x)
  {
    if x < 0.0 then -x else x
  }

  /** `ABS(a)` */
  function Abs(a: Option<real>): (r: Option<real>)
    ensures r.Some? <==> a.Some?
    ensures r.Some? ==> r.value == AbsReal(a.value)
  {
    match a
    case Some(x) => Some(AbsReal(x))
    case None => None
  }

  /** `a - b` */
  function Sub(a: Option<real>, b: Option<real>): (r: Option<real>)
    ensures r.Some? <==> a.Some? && b.Some?
    ensures r.Some? ==> r.value == a.value - b.value
  {
    if a.Some? && b.Some? then Some(a.value - b.value) else None
  }
}
