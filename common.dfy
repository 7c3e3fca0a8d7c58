/** Shared vocabulary of the model: optional values, the error kinds the
    handlers raise, and the two query shapes every listing endpoint uses
    (a WHERE filter and OFFSET/LIMIT paging). */
module Common {

  /** Python's `Optional[...]` / a nullable SQL column. */
  datatype Option<+T> = None | Some(value: T)

  /** Which record a 404 reports as missing. */
  datatype Missing = EventMissing | RegistrationMissing | UserMissing | CollegeMissing

  /** Why a 400 was raised (the distinct `detail` messages of the handlers). */
  datatype Reason =
    | AlreadyRegistered
    | EventFull
    | UsernameTaken
    | CannotDeactivateSelf
    | CannotDeleteSelf
    | EndNotAfterStart
    | CollegeCodeTaken
    | CollegeAdminTaken

  /** The HTTPException kinds raised by the handlers (404, 400 and 403),
      and the 422 the request schemas raise for a field out of bounds. */
  datatype Error = NotFound(missing: Missing) | BadRequest(reason: Reason) | Forbidden | Unprocessable

  datatype Result<+T> = Ok(value: T) | Err(error: Error)

  /** The rows of `s` that satisfy `p`, in table order (a SQL WHERE clause). */
  function Filter<T(!new)>(s: seq<T>, p: T -> bool): (r: seq<T>)
    ensures |r| <= |s|
    ensures forall x :: x in r <==> x in s && p(x)
  {
    if s == [] then []
    else
      var rest := Filter(s[1..], p);
      if p(s[0]) then [s[0]] + rest else rest
  }

  lemma {:induction false} FilterAppend<T(!new)>(s: seq<T>, t: seq<T>, p: T -> bool)
    ensures Filter(s + t, p) == Filter(s, p) + Filter(t, p)
  {
    if s == [] {
      assert s + t == t;
    } else {
      var st := s + t;
      assert st[0] == s[0] && st[1..] == s[1..] + t;
      FilterAppend(s[1..], t, p);
      assert Filter(st, p) == (if p(s[0]) then [s[0]] else []) + Filter(st[1..], p);
    }
  }

  /** Filtering never keeps more rows satisfying `q` than were there. */
  lemma {:induction false} FilterShrinks<T(!new)>(s: seq<T>, p: T -> bool, q: T -> bool)
    ensures |Filter(Filter(s, p), q)| <= |Filter(s, q)|
  {
    if s != [] {
      FilterShrinks(s[1..], p, q);
    }
  }

  /** Every two distinct positions of `s` hold rows related by `ok`
      (how the model states primary-key and unique constraints). */
  ghost predicate Pairwise<T>(s: seq<T>, ok: (T, T) -> bool) {
    forall i, j :: 0 <= i < j < |s| ==> ok(s[i], s[j])
  }

  lemma {:induction false} FilterPairwise<T(!new)>(s: seq<T>, p: T -> bool, ok: (T, T) -> bool)
    requires Pairwise(s, ok)
    ensures Pairwise(Filter(s, p), ok)
  {
    if s != [] {
      FilterPairwise(s[1..], p, ok);
      var rest := Filter(s[1..], p);
      if p(s[0]) {
        var r := [s[0]] + rest;
        forall i, j | 0 <= i < j < |r| ensures ok(r[i], r[j]) {
          if i == 0 {
            assert r[j] in s[1..];
            var k :| 0 <= k < |s[1..]| && s[1..][k] == r[j];
            assert s[k + 1] == r[j];
          } else {
            assert r[i] == rest[i - 1] && r[j] == rest[j - 1];
          }
        }
      }
    }
  }

  lemma PairwiseAppend<T>(s: seq<T>, x: T, ok: (T, T) -> bool)
    requires Pairwise(s, ok)
    requires forall i :: 0 <= i < |s| ==> ok(s[i], x)
    ensures Pairwise(s + [x], ok)
  {
    var t := s + [x];
    forall i, j | 0 <= i < j < |t| ensures ok(t[i], t[j]) {
      if j < |s| {
        assert t[i] == s[i] && t[j] == s[j];
      } else {
        assert t[i] == s[i] && t[j] == x;
      }
    }
  }

  /** `s` without its row at position `k` (deleting one row). */
  function RemoveAt<T>(s: seq<T>, k: nat): (r: seq<T>)
    requires k < |s|
    ensures |r| == |s| - 1
    ensures forall i :: 0 <= i < k ==> r[i] == s[i]
    ensures forall i :: k <= i < |r| ==> r[i] == s[i + 1]
  {
    s[..k] + s[k + 1..]
  }

  lemma RemoveAtPairwise<T>(s: seq<T>, k: nat, ok: (T, T) -> bool)
    requires k < |s| && Pairwise(s, ok)
    ensures Pairwise(RemoveAt(s, k), ok)
  {
    var r := RemoveAt(s, k);
    forall i, j | 0 <= i < j < |r| ensures ok(r[i], r[j]) {
      var i' := if i < k then i else i + 1;
      var j' := if j < k then j else j + 1;
      assert r[i] == s[i'] && r[j] == s[j'];
    }
  }

  /** Deleting a row keeps no more rows satisfying `q` than before. */
  lemma RemoveAtFilter<T(!new)>(s: seq<T>, k: nat, q: T -> bool)
    requires k < |s|
    ensures |Filter(RemoveAt(s, k), q)| == |Filter(s, q)| - (if q(s[k]) then 1 else 0)
  {
    assert s == s[..k] + [s[k]] + s[k + 1..];
    FilterAppend(s[..k] + [s[k]], s[k + 1..], q);
    FilterAppend(s[..k], [s[k]], q);
    FilterAppend(s[..k], s[k + 1..], q);
  }

  function Min(a: int, b: int): int { if a <= b then a else b }

  /** The query-parameter defaults of every listing endpoint. */
  const DefaultSkip: nat := 0
  const DefaultLimit: nat := 100

  /** SQL `OFFSET skip LIMIT limit` over an already ordered result. */
  function Page<T>(s: seq<T>, skip: nat, limit: nat): (r: seq<T>)
    ensures |r| == if skip >= |s| then 0 else Min(limit, |s| - skip)
    ensures forall i :: 0 <= i < |r| ==> skip + i < |s| && r[i] == s[skip + i]
  {
    if skip >= |s| then [] else s[skip..][..Min(limit, |s| - skip)]
  }
}
