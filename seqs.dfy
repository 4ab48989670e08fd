/** Searching and filtering sequences, with the semantics of JavaScript's
    `Array.prototype.find` and of a Django `filter(...)` over rows kept in
    id order. */
module Seqs {
  import opened Wrappers

  /** The index of the first element satisfying `p`, if any. */
  function IndexWhere<T>(s: seq<T>, p: T -> bool): (r: Option<nat>)
    ensures r.Some? ==> r.value < |s| && p(s[r.value])
    ensures r.Some? ==> forall j :: 0 <= j < r.value ==> !p(s[j])
    ensures r.None? ==> forall j :: 0 <= j < |s| ==> !p(s[j])
  {
    if s == [] then None
    else if p(s[0]) then Some(0)
    else
      var rest := IndexWhere(s[1..], p);
      if rest.Some? then Some(rest.value + 1) else None
  }

  /** The first element satisfying `p`, as `find` returns it. */
  function FindFirst<T>(s: seq<T>, p: T -> bool): (r: Option<T>)
    ensures r.Some? <==> exists j :: 0 <= j < |s| && p(s[j])
    ensures r.Some? ==> exists j :: 0 <= j < |s| && s[j] == r.value && p(s[j]) &&
                                    forall k :: 0 <= k < j ==> !p(s[k])
  {
    var i := IndexWhere(s, p);
    if i.Some? then Some(s[i.value]) else None
  }

  /** The elements satisfying `p`, in their original order. */
  function Filter<T>(s: seq<T>, p: T -> bool): (r: seq<T>)
    ensures |r| <= |s|
    ensures forall i :: 0 <= i < |r| ==> r[i] in s && p(r[i])
  {
    if s == [] then []
    else
      assert s == [s[0]] + s[1..];
      (if p(s[0]) then [s[0]] else []) + Filter(s[1..], p)
  }

  /** Filtering one more element at the end adds it exactly when it satisfies `p`. */
  lemma {:induction false} FilterOneMore<T>(s: seq<T>, x: T, p: T -> bool)
    ensures Filter(s + [x], p) == Filter(s, p) + (if p(x) then [x] else [])
  {
    var last: seq<T> := if p(x) then [x] else [];
    if s == [] {
      assert [x][1..] == [];
    } else {
      var head: seq<T> := if p(s[0]) then [s[0]] else [];
      calc {
        Filter(s + [x], p);
        { assert (s + [x])[0] == s[0] && (s + [x])[1..] == s[1..] + [x]; }
        head + Filter(s[1..] + [x], p);
        { FilterOneMore(s[1..], x, p); }
        head + (Filter(s[1..], p) + last);
        (head + Filter(s[1..], p)) + last;
      }
    }
  }

  /** Every element satisfying `p` survives the filter. */
  lemma {:induction false} FilterKeepsMatches<T>(s: seq<T>, p: T -> bool, i: nat)
    requires i < |s| && p(s[i])
    ensures s[i] in Filter(s, p)
  {
    assert s == [s[0]] + s[1..];
    if i > 0 {
      FilterKeepsMatches(s[1..], p, i - 1);
    }
  }

  /** Filtering keeps a sequence strictly ascending under any key. */
  lemma {:induction false} FilterKeepsAscending<T>(s: seq<T>, p: T -> bool, key: T -> int)
    requires forall i, j :: 0 <= i < j < |s| ==> key(s[i]) < key(s[j])
    ensures forall i, j :: 0 <= i < j < |Filter(s, p)| ==> key(Filter(s, p)[i]) < key(Filter(s, p)[j])
  {
    if s != [] {
      var tail := s[1..];
      FilterKeepsAscending(tail, p, key);
      var ft := Filter(tail, p);
      forall k | 0 <= k < |ft| ensures key(s[0]) < key(ft[k]) {
        var k' :| 0 <= k' < |tail| && tail[k'] == ft[k];
        assert s[k' + 1] == ft[k];
      }
      var head := if p(s[0]) then [s[0]] else [];
      var r := Filter(s, p);
      assert r == head + ft;
    }
  }
}
