/** Small facts about sequences and sets shared by the other modules. */
module Collections {

  /** The set of elements of a sequence. */
  function Elems<T>(s: seq<T>): (e: set<T>)
  {
    set x | x in s
  }

  lemma ElemsCons<T>(x: T, s: seq<T>)
    ensures Elems([x] + s) == Elems(s) + {x}
  {
    assert forall y :: y in [x] + s <==> y == x || y in s;
  }

  /** What growing a prefix by one element adds. */
  lemma PrefixSnoc<T>(s: seq<T>, i: nat)
    requires i < |s|
    ensures forall x :: x in s[..i + 1] <==> x in s[..i] || x == s[i]
  {
    assert s[..i + 1] == s[..i] + [s[i]];
  }

  /** A sequence has at most as many distinct elements as entries. */
  lemma {:induction false} ElemsCard<T>(s: seq<T>)
    ensures |Elems(s)| <= |s|
  {
    if s != [] {
      ElemsCard(s[1..]);
      assert s == [s[0]] + s[1..];
      ElemsCons(s[0], s[1..]);
    }
  }

  lemma {:induction false} SubsetCard<T>(a: set<T>, b: set<T>)
    requires a <= b
    ensures |a| <= |b|
    decreases b
  {
    if a != {} {
      var x :| x in a;
      SubsetCard(a - {x}, b - {x});
    }
  }

  /** No element occurs twice. */
  predicate Distinct<T(==)>(s: seq<T>)
  {
    forall i, j :: 0 <= i < j < |s| ==> s[i] != s[j]
  }

  /** A sequence without repetitions has as many distinct elements as entries. */
  lemma {:induction false} DistinctCard<T>(s: seq<T>)
    requires Distinct(s)
    ensures |Elems(s)| == |s|
  {
    if s != [] {
      assert Distinct(s[1..]);
      DistinctCard(s[1..]);
      assert s == [s[0]] + s[1..];
      ElemsCons(s[0], s[1..]);
      assert s[0] !in s[1..];
    }
  }

  /** Python's `list(s)` for a set `s`: every element once, in an order the
      language leaves unspecified (here: an arbitrary choice at each step). */
  method ListOf<T(==)>(s: set<T>) returns (xs: seq<T>)
    ensures Elems(xs) == s
    ensures Distinct(xs)
    ensures |xs| == |s|
  {
    xs := [];
    var rest := s;
    while rest != {}
      invariant Elems(xs) !! rest
      invariant Elems(xs) + rest == s
      invariant Distinct(xs)
      invariant |xs| + |rest| == |s|
      decreases |rest|
    {
      var x :| x in rest;
      xs := xs + [x];
      rest := rest - {x};
    }
  }
}
