/**
 * The iterator adaptors the parser is built from (`flat_map`, `filter_map`,
 * `zip`), as recursive functions over sequences, with the facts about them
 * that the parser's properties rest on.
 */
module Seqs {
  import opened Wrappers

  function Min(a: int, b: int): (m: int)
    ensures m <= a && m <= b
    ensures m == a || m == b
  {
    if a <= b then a else b
  }

  /** `iter().flat_map(f).collect()`: the concatenation of `f` over `s`. */
  function FlatMap<T, U>(s: seq<T>, f: T -> seq<U>): seq<U>
  {
    if s == [] then [] else f(s[0]) + FlatMap(s[1..], f)
  }

  /** Flat-mapping a concatenation concatenates the results: the output keeps input order. */
  lemma {:induction false} FlatMapAppend<T, U>(a: seq<T>, b: seq<T>, f: T -> seq<U>)
    ensures FlatMap(a + b, f) == FlatMap(a, f) + FlatMap(b, f)
  {
    if a == [] {
      assert a + b == b;
    } else {
      assert (a + b)[1..] == a[1..] + b;
      FlatMapAppend(a[1..], b, f);
    }
  }

  /** A flat-map is empty exactly when every element maps to nothing. */
  lemma {:induction false} FlatMapEmpty<T, U>(s: seq<T>, f: T -> seq<U>)
    ensures FlatMap(s, f) == [] <==> forall j :: 0 <= j < |s| ==> f(s[j]) == []
  {
    if s != [] {
      FlatMapEmpty(s[1..], f);
      assert forall j :: 1 <= j < |s| ==> s[j] == s[1..][j - 1];
    }
  }

  /** `iter().filter_map(f).collect()`: the values `f` yields over `s`, in order. */
  function FilterMap<T, U>(s: seq<T>, f: T -> Option<U>): (r: seq<U>)
    ensures |r| <= |s|
  {
    if s == [] then []
    else
      var rest := FilterMap(s[1..], f);
      match f(s[0])
      case Some(y) => [y] + rest
      case None => rest
  }

  /** A filter-map is empty exactly when the mapping fails everywhere. */
  lemma {:induction false} FilterMapEmpty<T, U>(s: seq<T>, f: T -> Option<U>)
    ensures FilterMap(s, f) == [] <==> forall j :: 0 <= j < |s| ==> f(s[j]).None?
  {
    if s != [] {
      FilterMapEmpty(s[1..], f);
      assert forall j :: 1 <= j < |s| ==> s[j] == s[1..][j - 1];
    }
  }

  lemma {:induction false} FilterMapAppend<T, U>(a: seq<T>, b: seq<T>, f: T -> Option<U>)
    ensures FilterMap(a + b, f) == FilterMap(a, f) + FilterMap(b, f)
  {
    if a == [] {
      assert a + b == b;
    } else {
      assert (a + b)[1..] == a[1..] + b;
      FilterMapAppend(a[1..], b, f);
    }
  }

  /**
   * The positions of `s` at which `f` yields a value, ascending: an
   * independent description of which elements a filter-map keeps.
   */
  function Kept<T, U>(s: seq<T>, f: T -> Option<U>): (idx: seq<nat>)
    ensures forall k :: 0 <= k < |idx| ==> idx[k] < |s| && f(s[idx[k]]).Some?
    ensures forall k, l :: 0 <= k < l < |idx| ==> idx[k] < idx[l]
    ensures forall j :: 0 <= j < |s| && f(s[j]).Some? ==> j in idx
  {
    if s == [] then []
    else
      var n := |s| - 1;
      Kept(s[..n], f) + (if f(s[n]).Some? then [n] else [])
  }

  /**
   * A filter-map is exactly the values at the kept positions, in the order
   * of those positions: nothing is reordered, dropped or invented.
   */
  lemma {:induction false} FilterMapKept<T, U>(s: seq<T>, f: T -> Option<U>)
    ensures |FilterMap(s, f)| == |Kept(s, f)|
    ensures forall k :: 0 <= k < |Kept(s, f)| ==> f(s[Kept(s, f)[k]]) == Some(FilterMap(s, f)[k])
  {
    if s != [] {
      var n := |s| - 1;
      var init := s[..n];
      FilterMapKept(init, f);
      assert s == init + [s[n]];
      FilterMapAppend(init, [s[n]], f);
      assert [s[n]][1..] == [];
      var idx, r := Kept(s, f), FilterMap(s, f);
      var front := Kept(init, f);
      assert idx == front + (if f(s[n]).Some? then [n] else []);
      assert r == FilterMap(init, f) + FilterMap([s[n]], f);
      forall k | 0 <= k < |idx|
        ensures f(s[idx[k]]) == Some(r[k])
      {
        if k < |front| {
          assert idx[k] == front[k] && r[k] == FilterMap(init, f)[k];
          assert s[front[k]] == init[front[k]];
        } else {
          assert idx[k] == n;
        }
      }
    }
  }

  /** `a.iter().zip(b.iter()).collect()`: pairs up to the shorter length. */
  function Zip<A, B>(a: seq<A>, b: seq<B>): (r: seq<(A, B)>)
    ensures |r| == Min(|a|, |b|)
    ensures forall i :: 0 <= i < |r| ==> r[i] == (a[i], b[i])
  {
    if a == [] || b == [] then [] else [(a[0], b[0])] + Zip(a[1..], b[1..])
  }
}
