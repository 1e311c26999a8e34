/** Shared vocabulary: optional values, results, HTTP errors, and the first-match
    search that the handlers' `findFirst`, `.limit(1)` queries and `Array.find` share. */
module Common {

  datatype Option<+T> = None | Some(value: T)

  /** The outcome of an operation that either yields a value or raises an error. */
  datatype Result<+T, +E> = Success(value: T) | Failure(error: E)

  /** The outcome of an operation that yields nothing but may raise an error. */
  datatype Outcome<+E> = Pass | Fail(error: E)

  /** An error raised with `createError`: a status code and its message. */
  datatype HttpError = HttpError(status: nat, message: string)

  /** The error h3 raises when a zod body schema rejects the request body. */
  const ValidationError := HttpError(400, "Validation Error")

  /** The error a request ends with when the database itself rejects a write
      (a foreign-key or unique violation, or a value that is not an integer). */
  const DatabaseError := HttpError(500, "Internal Server Error")

  /** The position of the first element of `s` that satisfies `p`: the row a query
      with `limit(1)` (or `findFirst`) returns when rows come back in table order. */
  function FirstIndex<T>(s: seq<T>, p: T -> bool): (r: Option<nat>)
    ensures r.Some? ==> r.value < |s| && p(s[r.value])
    ensures r.Some? ==> forall j :: 0 <= j < r.value ==> !p(s[j])
    ensures r.None? <==> forall j :: 0 <= j < |s| ==> !p(s[j])
  {
    if |s| == 0 then None
    else if p(s[0]) then Some(0)
    else match FirstIndex(s[1..], p)
      case None => None
      case Some(k) => Some(k + 1)
  }

  /** What a route middleware decides: let the navigation proceed, redirect it
      (`navigateTo`), or abort it with an error (`throw createError`). */
  datatype Navigation = Proceed | Redirect(target: string) | Abort(error: HttpError)

  /** No value occurs twice in `s`. */
  predicate Distinct<T(==)>(s: seq<T>) {
    forall i, j :: 0 <= i < j < |s| ==> s[i] != s[j]
  }

  /** In a sequence without repetitions, a value that occurs occurs exactly once. */
  lemma {:induction false} DistinctOccursOnce<T>(s: seq<T>, x: T)
    requires Distinct(s)
    ensures multiset(s)[x] == (if x in s then 1 else 0)
  {
    if s != [] {
      assert s == [s[0]] + s[1..];
      assert Distinct(s[1..]);
      DistinctOccursOnce(s[1..], x);
      assert s[0] !in s[1..];
    }
  }
}
