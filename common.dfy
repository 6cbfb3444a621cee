/** Small shared vocabulary: optional values (SQL NULL, a missing request
    field, a JavaScript `null`), JavaScript truthiness of such a value, and the
    "first row that matches" lookup that every `select ... where ... limit(1)`
    of the store performs. */
module Common {

  datatype Option<+T> = None | Some(value: T)

  /** A value, or the error the source raises or returns instead. */
  datatype Result<+T, +E> = Ok(value: T) | Err(error: E)

  /** `!x` is false in JavaScript for a string `x` exactly when `x` is present
      and non-empty. */
  predicate Truthy(x: Option<string>) {
    x.Some? && x.value != ""
  }

  /** `x || null` for an optional string: keeps a non-empty string, turns an
      empty or missing one into NULL. */
  function OrNull(x: Option<string>): (r: Option<string>)
    ensures Truthy(x) ==> r == x
    ensures !Truthy(x) ==> r.None?
  {
    if Truthy(x) then x else None
  }

  /** Index of the first element of `s` satisfying `p`, the row that a query
      with `limit(1)` returns when rows are read in insertion order. */
  function FindFirst<T>(s: seq<T>, p: T -> bool): (r: Option<nat>)
    ensures r.Some? ==> r.value < |s| && p(s[r.value])
    ensures r.Some? ==> forall k :: 0 <= k < r.value ==> !p(s[k])
    ensures r.None? <==> forall k :: 0 <= k < |s| ==> !p(s[k])
  {
    if |s| == 0 then None
    else if p(s[0]) then Some(0)
    else
      match FindFirst(s[1..], p)
      case None => None
      case Some(i) => Some(i + 1)
  }

  /** `ceil(n / d)` on naturals: the least number of pages of `d` items that
      holds `n` items. */
  function CeilDiv(n: nat, d: nat): (q: nat)
    requires d > 0
    ensures q * d >= n
    ensures q == 0 || (q - 1) * d < n
  {
    (n + d - 1) / d
  }

  /** The two conditions of `CeilDiv` pin the page count down. */
  lemma CeilUnique(a: nat, b: nat, n: nat, d: nat)
    requires d > 0
    requires a * d >= n && (a == 0 || (a - 1) * d < n)
    requires b * d >= n && (b == 0 || (b - 1) * d < n)
    ensures a == b
  {
    if b > 0 { FactorBelow(b - 1, a, d, n); }
    if a > 0 { FactorBelow(a - 1, b, d, n); }
  }

  lemma FactorBelow(x: nat, y: nat, d: nat, n: nat)
    requires d > 0 && x * d < n <= y * d
    ensures x < y
  {
    assert (y - x) * d == y * d - x * d;
  }
}
