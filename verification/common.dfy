/**
 * Shared vocabulary of the backend model: optional request fields, the HTTP
 * status codes the handlers send, JavaScript truthiness of request fields, and
 * the "find first row matching a filter" lookup that every query of the
 * controllers performs.
 */
module Common {

  datatype Option<+T> = None | Some(value: T)

  /** Primary keys. The database generates them; the model draws them from a counter. */
  type Id = nat

  const OK: int := 200
  const CREATED: int := 201
  const NO_CONTENT: int := 204
  const BAD_REQUEST: int := 400
  const UNAUTHORIZED: int := 401
  const FORBIDDEN: int := 403
  const NOT_FOUND: int := 404
  const CONFLICT: int := 409

  /**
   * A string field of a JSON body is truthy when it is present and not the
   * empty string: `!field` holds for `undefined` and for `""`.
   */
  predicate Given(field: Option<string>)
  {
    field.Some? && field.value != ""
  }

  /** A numeric field is truthy when present and non-zero: `!amount` holds for `undefined` and `0`. */
  predicate GivenAmount(field: Option<real>)
  {
    field.Some? && field.value != 0.0
  }

  /**
   * Index of the first element satisfying `p`, as a `findFirst` query returns
   * the first matching row.
   */
  function FirstIndex<T>(s: seq<T>, p: T -> bool): (r: Option<nat>)
    ensures r.Some? ==> r.value < |s| && p(s[r.value])
    ensures r.Some? ==> forall k :: 0 <= k < r.value ==> !p(s[k])
    ensures r.None? ==> forall k :: 0 <= k < |s| ==> !p(s[k])
  {
    if s == [] then None
    else if p(s[0]) then Some(0)
    else
      match FirstIndex(s[1..], p)
      case None => None
      case Some(i) => Some(i + 1)
  }

  /** The rows of `s` that satisfy `p`, in table order (a `findMany` with a `where` filter). */
  function Filter<T(!new)>(s: seq<T>, p: T -> bool): (r: seq<T>)
    ensures |r| <= |s|
    ensures forall x :: x in r <==> x in s && p(x)
  {
    if s == [] then []
    else (if p(s[0]) then [s[0]] else []) + Filter(s[1..], p)
  }

  /** The table `s` with row `i` deleted. */
  function RemoveAt<T>(s: seq<T>, i: nat): (r: seq<T>)
    requires i < |s|
    ensures |r| == |s| - 1
    ensures forall k :: 0 <= k < i ==> r[k] == s[k]
    ensures forall k :: i <= k < |r| ==> r[k] == s[k + 1]
  {
    s[..i] + s[i + 1..]
  }

  /** No two rows of `s` share a primary key. */
  predicate Distinct<T>(s: seq<T>, key: T -> Id)
  {
    forall j, k :: 0 <= j < k < |s| ==> key(s[j]) != key(s[k])
  }

  /** A filtered table keeps its primary keys unique. */
  lemma {:induction false} FilterDistinct<T(!new)>(s: seq<T>, p: T -> bool, key: T -> Id)
    requires Distinct(s, key)
    ensures Distinct(Filter(s, p), key)
  {
    if s != [] {
      FilterDistinct(s[1..], p, key);
      var rest := Filter(s[1..], p);
      if p(s[0]) {
        var r := [s[0]] + rest;
        forall j, k | 0 <= j < k < |r| ensures key(r[j]) != key(r[k]) {
          if j == 0 {
            assert r[k] in s[1..];
            var m :| 0 <= m < |s[1..]| && s[1..][m] == r[k];
            assert s[m + 1] == r[k];
          } else {
            assert r[j] == rest[j - 1] && r[k] == rest[k - 1];
          }
        }
      }
    }
  }

  /** Deleting a row keeps primary keys unique. */
  lemma RemoveAtDistinct<T>(s: seq<T>, i: nat, key: T -> Id)
    requires i < |s| && Distinct(s, key)
    ensures Distinct(RemoveAt(s, i), key)
  {
    var r := RemoveAt(s, i);
    forall j, k | 0 <= j < k < |r| ensures key(r[j]) != key(r[k]) {
      var j' := if j < i then j else j + 1;
      var k' := if k < i then k else k + 1;
      assert r[j] == s[j'] && r[k] == s[k'];
    }
  }

  /** Deleting a row leaves only rows that were there. */
  lemma RemoveAtSubset<T>(s: seq<T>, i: nat)
    requires i < |s|
    ensures forall x :: x in RemoveAt(s, i) ==> x in s
  {
    var r := RemoveAt(s, i);
    forall x | x in r ensures x in s {
      var k :| 0 <= k < |r| && r[k] == x;
      assert x == s[if k < i then k else k + 1];
    }
  }
}
