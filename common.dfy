// Shared vocabulary of the record store: optional values, error results,
// first-match scans, the identity allocator and the newest-first sort.

module Common {

  datatype Option<T> = None | Some(value: T)
  {
    function GetOr(default: T): T
    {
      match this
      case Some(v) => v
      case None => default
    }
  }

  /** The error classes raised by the ledgers (the source raises ValueError,
      FileNotFoundError or PermissionError; the class says which check failed). */
  datatype Error =
    | Validation        // malformed or out-of-range input
    | NotFound          // a referenced id does not resolve
    | Conflict          // uniqueness would be violated
    | CapacityExceeded  // an advisee or jury capacity would be exceeded
    | Temporal          // attempted after a date cutoff
    | Auth              // credential mismatch
    | PermissionDenied  // categorically disallowed

  datatype Result<T> = Ok(value: T) | Err(error: Error)

  /** For operations that return True or raise. */
  datatype Outcome = Pass | Fail(error: Error)

  /** Instants (the parsed form of the source's ISO timestamps), as seconds. */
  type Time = int

  /** Index of the first element satisfying p: the `for x in xs: if ...: return x` scans. */
  function FindFirst<T>(s: seq<T>, p: T -> bool): (r: Option<nat>)
    ensures r.Some? ==> r.value < |s| && p(s[r.value])
    ensures r.Some? ==> forall j :: 0 <= j < r.value ==> !p(s[j])
    ensures r.None? ==> forall j :: 0 <= j < |s| ==> !p(s[j])
  {
    if s == [] then None
    else if p(s[0]) then Some(0)
    else match FindFirst(s[1..], p)
      case None => None
      case Some(k) => Some(k + 1)
  }

  /** The identity allocator: 1 on an empty collection, else the largest id plus one. */
  function NextId<T>(s: seq<T>, id: T -> int): (r: int)
    ensures s == [] ==> r == 1
    ensures forall k :: 0 <= k < |s| ==> id(s[k]) < r
    ensures s != [] ==> exists k :: 0 <= k < |s| && id(s[k]) == r - 1
  {
    if s == [] then 1
    else
      var rest := NextId(s[1..], id);
      if |s| == 1 || id(s[0]) >= rest then
        id(s[0]) + 1
      else
        assert exists k :: 1 <= k < |s| && id(s[k]) == rest - 1 by {
          var k' :| 0 <= k' < |s[1..]| && id(s[1..][k']) == rest - 1;
          assert id(s[k' + 1]) == rest - 1;
        }
        rest
  }

  /** No two records of a collection share an id. */
  ghost predicate DistinctIds<T>(s: seq<T>, id: T -> int)
  {
    forall i, j :: 0 <= i < j < |s| ==> id(s[i]) != id(s[j])
  }

  /** Appending a record whose id came from the allocator keeps the ids distinct. */
  lemma AllocatedIdKeepsDistinct<T>(s: seq<T>, id: T -> int, x: T)
    requires DistinctIds(s, id)
    requires id(x) == NextId(s, id)
    ensures DistinctIds(s + [x], id)
  {
    forall i, j | 0 <= i < j < |s + [x]|
      ensures id((s + [x])[i]) != id((s + [x])[j])
    {
      if j == |s| {
        assert id(s[i]) < NextId(s, id);
      }
    }
  }

  /** Python's prefix slice `s[:n]`; a negative n counts from the end. */
  function Take<T>(s: seq<T>, n: int): (r: seq<T>)
    ensures r <= s
    ensures 0 <= n ==> |r| == if n < |s| then n else |s|
    ensures n < 0 ==> |r| == if |s| + n > 0 then |s| + n else 0
  {
    if 0 <= n then (if n < |s| then s[..n] else s)
    else if |s| + n > 0 then s[..|s| + n]
    else []
  }

  ghost predicate SortedDesc<T>(s: seq<T>, key: T -> int)
  {
    forall i, j :: 0 <= i < j < |s| ==> key(s[i]) >= key(s[j])
  }

  /** Inserts x before the first element whose key is not larger than its
      own, so x precedes the equal-key elements that follow it in the input;
      this keeps the sort below stable. */
  function InsertDesc<T>(x: T, s: seq<T>, key: T -> int): (r: seq<T>)
    ensures multiset(r) == multiset(s) + multiset{x}
    ensures forall y :: y in r ==> y == x || y in s
  {
    if s == [] then [x]
    else if key(x) >= key(s[0]) then [x] + s
    else
      assert s == [s[0]] + s[1..];
      [s[0]] + InsertDesc(x, s[1..], key)
  }

  /** Inserting into a sorted list keeps it sorted. */
  lemma {:induction false} InsertDescSorted<T>(x: T, s: seq<T>, key: T -> int)
    requires SortedDesc(s, key)
    ensures SortedDesc(InsertDesc(x, s, key), key)
  {
    if s != [] {
      assert forall j :: 0 <= j < |s| ==> key(s[0]) >= key(s[j]);
      if key(x) < key(s[0]) {
        var tail := s[1..];
        assert SortedDesc(tail, key) by {
          forall i, j | 0 <= i < j < |tail| ensures key(tail[i]) >= key(tail[j]) {
            assert tail[i] == s[i + 1] && tail[j] == s[j + 1];
          }
        }
        InsertDescSorted(x, tail, key);
        var rest := InsertDesc(x, tail, key);
        forall y | y in rest ensures key(y) <= key(s[0]) {
          if y != x {
            var i :| 0 <= i < |tail| && tail[i] == y;
            assert s[i + 1] == y;
          }
        }
        var r := [s[0]] + rest;
        forall i, j | 0 <= i < j < |r| ensures key(r[i]) >= key(r[j]) {
          assert r[j] == rest[j - 1];
          assert r[j] in rest;
          if i > 0 {
            assert r[i] == rest[i - 1];
          }
        }
      }
    }
  }

  /** Stable sort by descending key: Python's `sorted(xs, key=k, reverse=True)`. */
  function SortDesc<T>(s: seq<T>, key: T -> int): (r: seq<T>)
    ensures multiset(r) == multiset(s)
    ensures SortedDesc(r, key)
  {
    if s == [] then []
    else
      assert s == [s[0]] + s[1..];
      var sorted := SortDesc(s[1..], key);
      InsertDescSorted(s[0], sorted, key);
      InsertDesc(s[0], sorted, key)
  }

  lemma SortedElementsFrom<T>(s: seq<T>, key: T -> int)
    ensures forall y :: y in SortDesc(s, key) <==> y in s
  {
    var r := SortDesc(s, key);
    forall y ensures y in r <==> y in s {
      assert y in r <==> y in multiset(r);
      assert y in s <==> y in multiset(s);
    }
  }
}
