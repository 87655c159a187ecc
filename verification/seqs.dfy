/** Order-preserving selection of table rows, the in-memory counterpart of a
    SQL `DELETE ... WHERE` (the rows that stay) and of `Array.prototype.filter`. */
module Seqs {
  import opened Wrappers

  /** The elements of s that satisfy keep, in their original order. */
  function Filter<T>(s: seq<T>, keep: T -> bool): (r: seq<T>)
    ensures |r| <= |s|
    ensures forall i :: 0 <= i < |r| ==> r[i] in s && keep(r[i])
    ensures forall i :: 0 <= i < |s| && keep(s[i]) ==> s[i] in r
    decreases |s|
  {
    if |s| == 0 then []
    else
      var rest := Filter(s[1..], keep);
      assert forall i :: 1 <= i < |s| ==> s[1..][i - 1] == s[i];
      if keep(s[0]) then [s[0]] + rest else rest
  }

  /** A selection keeps every element exactly when all satisfy keep, and
      none when none does. */
  lemma {:induction false} FilterAllOrNone<T>(s: seq<T>, keep: T -> bool)
    ensures |Filter(s, keep)| == |s| <==> forall i :: 0 <= i < |s| ==> keep(s[i])
    ensures (forall i :: 0 <= i < |s| ==> keep(s[i])) ==> Filter(s, keep) == s
    ensures (forall i :: 0 <= i < |s| ==> !keep(s[i])) ==> Filter(s, keep) == []
    decreases |s|
  {
    if |s| > 0 {
      var tail := s[1..];
      FilterAllOrNone(tail, keep);
      assert forall i :: 1 <= i < |s| ==> tail[i - 1] == s[i];
      if forall i :: 0 <= i < |s| ==> keep(s[i]) {
        assert s == [s[0]] + tail;
      }
    }
  }

  /** The first element of s that satisfies p, as a `SELECT ... LIMIT 1`
      or `Array.prototype.find` reads it. */
  function FindFirst<T>(s: seq<T>, p: T -> bool): (r: Option<T>)
    ensures r.None? <==> forall i :: 0 <= i < |s| ==> !p(s[i])
    ensures r.Some? ==> exists i :: 0 <= i < |s| && s[i] == r.value && p(s[i]) && forall k :: 0 <= k < i ==> !p(s[k])
    decreases |s|
  {
    if |s| == 0 then None
    else if p(s[0]) then Some(s[0])
    else
      var r := FindFirst(s[1..], p);
      assert forall i :: 1 <= i < |s| ==> s[1..][i - 1] == s[i];
      r
  }

  /** Filtering distributes over concatenation. */
  lemma {:induction false} FilterAppend<T>(s: seq<T>, t: seq<T>, keep: T -> bool)
    ensures Filter(s + t, keep) == Filter(s, keep) + Filter(t, keep)
    decreases |s|
  {
    if |s| > 0 {
      assert (s + t)[1..] == s[1..] + t;
      FilterAppend(s[1..], t, keep);
    } else {
      assert s + t == t;
    }
  }

  /** A selection and its complement share the rows out between them. */
  lemma {:induction false} FilterComplement<T>(s: seq<T>, keep: T -> bool, drop: T -> bool)
    requires forall i :: 0 <= i < |s| ==> drop(s[i]) == !keep(s[i])
    ensures |Filter(s, keep)| + |Filter(s, drop)| == |s|
    decreases |s|
  {
    if |s| > 0 {
      FilterComplement(s[1..], keep, drop);
    }
  }

  /** No two positions of s carry the same key. */
  ghost predicate DistinctBy<T, K>(s: seq<T>, key: T -> K) {
    forall i, j :: 0 <= i < |s| && 0 <= j < |s| && i != j ==> key(s[i]) != key(s[j])
  }

  /** Deleting rows keeps a key unique. */
  lemma {:induction false} FilterDistinct<T, K>(s: seq<T>, keep: T -> bool, key: T -> K)
    requires DistinctBy(s, key)
    ensures DistinctBy(Filter(s, keep), key)
    decreases |s|
  {
    if |s| > 0 {
      var tail := s[1..];
      assert forall i :: 0 <= i < |tail| ==> tail[i] == s[i + 1];
      FilterDistinct(tail, keep, key);
      var rest := Filter(tail, keep);
      if keep(s[0]) {
        forall k | 0 <= k < |rest|
          ensures key(rest[k]) != key(s[0])
        {
          var m :| 0 <= m < |tail| && tail[m] == rest[k];
          assert s[m + 1] == rest[k];
        }
        assert Filter(s, keep) == [s[0]] + rest;
      }
    }
  }

  /** When no two elements satisfy p, at most one survives the selection. */
  lemma {:induction false} FilterAtMostOne<T>(s: seq<T>, p: T -> bool)
    requires forall i, j :: 0 <= i < |s| && 0 <= j < |s| && i != j ==> !(p(s[i]) && p(s[j]))
    ensures |Filter(s, p)| <= 1
    decreases |s|
  {
    if |s| > 0 {
      var tail := s[1..];
      assert forall i :: 0 <= i < |tail| ==> tail[i] == s[i + 1];
      if p(s[0]) {
        assert forall j :: 0 <= j < |tail| ==> !p(tail[j]) by {
          forall j | 0 <= j < |tail| ensures !p(tail[j]) {
            assert j + 1 != 0;
          }
        }
        FilterAllOrNone(tail, p);
        assert Filter(s, p) == [s[0]] + Filter(tail, p);
      } else {
        FilterAtMostOne(tail, p);
      }
    }
  }
}
