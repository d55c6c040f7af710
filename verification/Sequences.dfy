/**
  Laws of sequences that the verifier does not always see unaided, and the selection of elements.
 */
module Sequences {

  lemma Associate<T>(a: seq<T>, b: seq<T>, c: seq<T>)
    ensures a + b + c == a + (b + c)
  {}

  lemma SameParts<T>(a: seq<T>, b: seq<T>, c: seq<T>, d: seq<T>)
    requires |a| == |c|
    ensures a + b == c + d <==> a == c && b == d
  {
    assert (a + b)[..|a|] == a && (a + b)[|a|..] == b;
    assert (c + d)[..|c|] == c && (c + d)[|c|..] == d;
  }

  // ---------------------------------------------------------------------------
  // Selection

  /** The elements that satisfy `p`, in order. */
  function Select<T(!new)>(rows: seq<T>, p: T -> bool): (r: seq<T>)
    ensures forall x :: x in r <==> x in rows && p(x)
  {
    if rows == [] then []
    else if p(rows[0]) then [rows[0]] + Select(rows[1..], p)
    else Select(rows[1..], p)
  }

  lemma {:induction false} SelectAppend<T(!new)>(a: seq<T>, b: seq<T>, p: T -> bool)
    ensures Select(a + b, p) == Select(a, p) + Select(b, p)
  {
    if a == [] {
      assert a + b == b;
    } else {
      assert (a + b)[1..] == a[1..] + b;
      SelectAppend(a[1..], b, p);
    }
  }

  lemma {:induction false} SameSelection<T(!new)>(rows: seq<T>, p: T -> bool, q: T -> bool)
    requires forall x | x in rows :: p(x) == q(x)
    ensures Select(rows, p) == Select(rows, q)
  {
    if rows != [] { SameSelection(rows[1..], p, q); }
  }

  /** Rows that `q` removes are not among those `p` looks at. */
  lemma {:induction false} SelectDisjoint<T(!new)>(rows: seq<T>, p: T -> bool, q: T -> bool)
    requires forall x | x in rows && p(x) :: q(x)
    ensures Select(Select(rows, q), p) == Select(rows, p)
  {
    if rows != [] {
      SelectDisjoint(rows[1..], p, q);
      if q(rows[0]) {
        assert Select(rows, q)[1..] == Select(rows[1..], q);
      }
    }
  }

  /** `picked` are the elements of `rows` at the ascending places `at`, and these are all the places
      where `p` holds. */
  ghost predicate Picks<T(!new)>(at: seq<nat>, picked: seq<T>, rows: seq<T>, p: T -> bool) {
    && |at| == |picked|
    && (forall k | 0 <= k < |at| :: at[k] < |rows| && p(rows[at[k]]) && picked[k] == rows[at[k]])
    && (forall j, k | 0 <= j < k < |at| :: at[j] < at[k])
    && (forall i | 0 <= i < |rows| && p(rows[i]) :: i in at)
  }

  /** Exactly the elements that satisfy `p` are left, each where it was between the others. */
  ghost predicate KeptInOrder<T(!new)>(picked: seq<T>, rows: seq<T>, p: T -> bool) {
    exists at: seq<nat> :: Picks(at, picked, rows, p)
  }

  lemma {:induction false} SelectKeeps<T(!new)>(rows: seq<T>, p: T -> bool)
    ensures KeptInOrder(Select(rows, p), rows, p)
  {
    var at := PlacesOf(rows, p);
  }

  lemma {:induction false} PlacesOf<T(!new)>(rows: seq<T>, p: T -> bool) returns (at: seq<nat>)
    ensures Picks(at, Select(rows, p), rows, p)
  {
    at := [];
    if rows != [] {
      var n := |rows| - 1;
      var before := PlacesOf(rows[..n], p);
      assert rows == rows[..n] + [rows[n]];
      SelectAppend(rows[..n], [rows[n]], p);
      PicksOneMore(before, Select(rows[..n], p), rows, p);
      at := before + if p(rows[n]) then [n] else [];
    }
  }

  lemma PicksOneMore<T(!new)>(at: seq<nat>, picked: seq<T>, rows: seq<T>, p: T -> bool)
    requires rows != [] && Picks(at, picked, rows[..|rows| - 1], p)
    ensures var n := |rows| - 1;
      Picks(at + (if p(rows[n]) then [n] else []), picked + (if p(rows[n]) then [rows[n]] else []), rows, p)
  {
    var n := |rows| - 1;
    var next := at + if p(rows[n]) then [n] else [];
    forall i | 0 <= i < |rows| && p(rows[i]) ensures i in next {
      if i < n { assert rows[..n][i] == rows[i]; } else { assert next[|at|] == n; }
    }
  }
}
