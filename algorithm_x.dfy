/**
 * Knuth's Algorithm X over two tables:
 *  - `constraints`, from each still-uncovered column to the rows that can
 *    still cover it; the search mutates it in place and restores it;
 *  - `options`, from each row to the columns it covers; never mutated.
 *
 * The tables are modelled as a map of sets and a map of sequences. The
 * columns of a row are a sequence because `deselect` walks them backwards.
 */
module AlgorithmX {
  import opened Collections

  // ---------------------------------------------------------------------
  // The shape of a table the search can work on
  // ---------------------------------------------------------------------

  /** No row lists the same column twice (`set.remove` would fail the second time). */
  ghost predicate WellFormed<C, R>(options: map<R, seq<C>>)
  {
    forall r :: r in options ==> Distinct(options[r])
  }

  /** Row `r` covers column `c`. */
  ghost predicate CoversColumn<C, R>(options: map<R, seq<C>>, r: R, c: C)
  {
    r in options && c in options[r]
  }

  /** Row `r` is still a candidate: it covers at least one column, every one of
      its columns is uncovered, and it is listed under each of them. */
  ghost predicate Live<C, R>(t: map<C, set<R>>, options: map<R, seq<C>>, r: R)
  {
    && r in options
    && options[r] != []
    && forall c :: c in options[r] ==> c in t && r in t[c]
  }

  /** The row/column consistency the search keeps: a row listed under an
      uncovered column covers that column and is live. */
  ghost predicate Consistent<C, R>(t: map<C, set<R>>, options: map<R, seq<C>>)
  {
    forall c, r :: c in t && r in t[c] ==> CoversColumn(options, r, c) && Live(t, options, r)
  }

  /** The minimum-remaining-candidates rule: no column has fewer candidates than `c`. */
  predicate IsMinColumn<C, R>(t: map<C, set<R>>, c: C)
  {
    c in t && forall c' :: c' in t ==> |t[c]| <= |t[c']|
  }

  // ---------------------------------------------------------------------
  // What select and deselect do, as functions of the table
  // ---------------------------------------------------------------------

  /** The rows listed under any of the columns `cs`. */
  ghost function Conflicts<C, R>(t: map<C, set<R>>, cs: seq<C>): (rows: set<R>)
  {
    set c, r | c in cs && c in t && r in t[c] :: r
  }

  /** The table after the columns `cs` are covered one after the other: those
      columns are gone, and so is every row listed under one of them. */
  ghost function Selected<C, R>(t: map<C, set<R>>, cs: seq<C>): (u: map<C, set<R>>)
  {
    map c | c in t && c !in cs :: t[c] - Conflicts(t, cs)
  }

  /** The candidate sets popped while covering `cs`, in order: the set of
      `cs[i]` as it stood once `cs[..i]` had been covered. */
  ghost function SavedSets<C, R>(t: map<C, set<R>>, cs: seq<C>): (saved: seq<set<R>>)
    requires forall c :: c in cs ==> c in t
  {
    seq(|cs|, i requires 0 <= i < |cs| => t[cs[i]] - Conflicts(t, cs[..i]))
  }

  /** One column covered: it is popped and its rows leave every other column. */
  ghost function Cover<C, R>(u: map<C, set<R>>, c: C): (v: map<C, set<R>>)
    requires c in u
  {
    map c' | c' in u && c' != c :: u[c'] - u[c]
  }

  /** The rows of `rows` that cover column `c`. */
  ghost function RowsOn<C, R>(rows: set<R>, options: map<R, seq<C>>, c: C): (on: set<R>)
  {
    set r | r in rows && CoversColumn(options, r, c)
  }

  /** One column uncovered: it gets back its saved set and each of those rows is
      added back to its other columns. */
  ghost function Uncover<C, R>(u: map<C, set<R>>, options: map<R, seq<C>>, c: C, saved: set<R>): (v: map<C, set<R>>)
  {
    map c' | c' in u.Keys + {c} :: if c' == c then saved else u[c'] + RowsOn(saved, options, c')
  }

  // ---------------------------------------------------------------------
  // Exact covers
  // ---------------------------------------------------------------------

  /** A set of live rows that covers every uncovered column exactly once. */
  ghost predicate IsExactCover<C, R>(t: map<C, set<R>>, options: map<R, seq<C>>, s: set<R>)
  {
    && (forall r :: r in s ==> Live(t, options, r))
    && (forall c :: c in t ==> exists r :: r in s && CoversColumn(options, r, c))
    && (forall c, r1, r2 :: c in t && r1 in s && r2 in s && CoversColumn(options, r1, c) && CoversColumn(options, r2, c) ==> r1 == r2)
  }

  /** A solution as the solver yields it: rows without repetition forming an exact cover. */
  ghost predicate IsSolution<C, R>(t: map<C, set<R>>, options: map<R, seq<C>>, sol: seq<R>)
  {
    Distinct(sol) && IsExactCover(t, options, Elems(sol))
  }

  /** `sols` lists every exact cover of `t` once: each entry is a solution, each
      exact cover is the row set of some entry, and no two entries have the same rows. */
  ghost predicate AllCovers<C, R(!new)>(t: map<C, set<R>>, options: map<R, seq<C>>, sols: seq<seq<R>>)
  {
    && (forall i :: 0 <= i < |sols| ==> IsSolution(t, options, sols[i]))
    && (forall s :: IsExactCover(t, options, s) ==> exists i :: 0 <= i < |sols| && Elems(sols[i]) == s)
    && (forall i, j :: 0 <= i < j < |sols| ==> Elems(sols[i]) != Elems(sols[j]))
  }

  // ---------------------------------------------------------------------
  // Lemmas about select and deselect
  // ---------------------------------------------------------------------

  lemma SelectedNothing<C, R>(t: map<C, set<R>>)
    ensures Selected(t, []) == t
  {
    assert Conflicts(t, []) == {};
    assert Selected(t, []).Keys == t.Keys;
    forall c | c in t ensures Selected(t, [])[c] == t[c] {
    }
  }

  lemma ConflictsSnoc<C, R>(t: map<C, set<R>>, cs: seq<C>, c: C)
    requires c in t
    ensures Conflicts(t, cs + [c]) == Conflicts(t, cs) + t[c]
  {
    var l, rr := Conflicts(t, cs + [c]), Conflicts(t, cs) + t[c];
    forall r | r in l ensures r in rr {
      var c0 :| c0 in cs + [c] && c0 in t && r in t[c0];
      if c0 != c { assert c0 in cs; }
    }
    forall r | r in rr ensures r in l {
      if r !in t[c] {
        var c0 :| c0 in cs && c0 in t && r in t[c0];
        assert c0 in cs + [c];
      }
    }
  }

  /** Covering the columns one at a time: after `cs[..i]` the next column is
      still present, covering it gives the table after `cs[..i+1]`, and the set
      popped is the i-th saved set. */
  lemma CoverStep<C, R>(t: map<C, set<R>>, cs: seq<C>, i: nat)
    requires Distinct(cs) && i < |cs|
    requires forall c :: c in cs ==> c in t
    ensures cs[i] in Selected(t, cs[..i])
    ensures Selected(t, cs[..i])[cs[i]] == SavedSets(t, cs)[i]
    ensures Cover(Selected(t, cs[..i]), cs[i]) == Selected(t, cs[..i + 1])
  {
    var p, c := cs[..i], cs[i];
    assert cs[..i + 1] == p + [c];
    forall j | 0 <= j < |p| ensures p[j] != c {
      assert p[j] == cs[j];
    }
    ConflictsSnoc(t, p, c);
    var u := Selected(t, p);
    var lhs, rhs := Cover(u, c), Selected(t, p + [c]);
    assert lhs.Keys == rhs.Keys;
    forall c' | c' in lhs ensures lhs[c'] == rhs[c'] {
      assert u[c'] - u[c] == (t[c'] - Conflicts(t, p)) - (t[c] - Conflicts(t, p));
    }
  }

  /** Covering columns keeps the table consistent. */
  lemma SelectedConsistent<C, R>(t: map<C, set<R>>, options: map<R, seq<C>>, cs: seq<C>)
    requires Consistent(t, options)
    ensures Consistent(Selected(t, cs), options)
  {
    var u, k := Selected(t, cs), Conflicts(t, cs);
    forall c, r | c in u && r in u[c] ensures CoversColumn(options, r, c) && Live(u, options, r) {
      assert r in t[c] && r !in k;
      assert Live(t, options, r);
      forall c2 | c2 in options[r] ensures c2 in u && r in u[c2] {
        assert c2 in t && r in t[c2];
        assert c2 !in cs;
      }
    }
  }

  lemma RowsOnInsert<C, R>(rows: set<R>, options: map<R, seq<C>>, c: C, r: R)
    ensures RowsOn(rows + {r}, options, c) ==
              if CoversColumn(options, r, c) then RowsOn(rows, options, c) + {r} else RowsOn(rows, options, c)
  {
  }

  /** One row of uncover's loop: re-adding `r2` to its other columns extends
      the rows restored so far by `r2`. */
  lemma AttachStep<C, R>(u: map<C, set<R>>, options: map<R, seq<C>>, c: C, done: set<R>, r2: R,
                         prev: map<C, set<R>>, next: map<C, set<R>>)
    requires r2 in options
    requires prev.Keys == u.Keys + {c}
    requires forall c' :: c' in u && c' != c ==> prev[c'] == u[c'] + RowsOn(done, options, c')
    requires next.Keys == prev.Keys
    requires forall c' :: c' in next ==>
               next[c'] == if c' != c && c' in options[r2] then prev[c'] + {r2} else prev[c']
    ensures forall c' :: c' in u && c' != c ==> next[c'] == u[c'] + RowsOn(done + {r2}, options, c')
  {
    forall c' | c' in u && c' != c ensures next[c'] == u[c'] + RowsOn(done + {r2}, options, c') {
      RowsOnInsert(done, options, c', r2);
    }
  }

  /** The rows popped with a column of a consistent table are live in it, so
      uncover finds each of their other columns present. */
  lemma SavedRowsLive<C, R>(x: map<C, set<R>>, options: map<R, seq<C>>, c: C)
    requires Consistent(x, options) && c in x
    ensures forall r2 :: r2 in x[c] ==>
              r2 in options && forall c2 :: c2 in options[r2] && c2 != c ==> c2 in Cover(x, c)
  {
    forall r2 | r2 in x[c]
      ensures r2 in options && forall c2 :: c2 in options[r2] && c2 != c ==> c2 in Cover(x, c)
    {
      assert Live(x, options, r2);
    }
  }

  /** Uncovering a column with the set popped when it was covered restores the
      table exactly (one step of deselect undoing one step of select). */
  lemma UncoverCover<C, R>(u: map<C, set<R>>, options: map<R, seq<C>>, c: C)
    requires Consistent(u, options) && c in u
    ensures Uncover(Cover(u, c), options, c, u[c]) == u
  {
    var back := Uncover(Cover(u, c), options, c, u[c]);
    assert back.Keys == u.Keys;
    forall c' | c' in u && c' != c ensures back[c'] == u[c'] {
      var on := RowsOn(u[c], options, c');
      forall r | r in on ensures r in u[c'] {
        assert Live(u, options, r);
      }
      forall r | r in u[c'] && r in u[c] ensures r in on {
        assert CoversColumn(options, r, c');
      }
      assert back[c'] == (u[c'] - u[c]) + on;
    }
  }

  /** After select(r) every column of `r` is gone, and no remaining column lists
      a row that shares a column with `r`. */
  lemma SelectRemovesConflicts<C, R>(t: map<C, set<R>>, options: map<R, seq<C>>, r: R)
    requires Consistent(t, options) && r in options
    ensures forall c :: c in options[r] ==> c !in Selected(t, options[r])
    ensures forall c, r2 :: c in Selected(t, options[r]) && r2 in Selected(t, options[r])[c] ==>
              forall c2 :: c2 in options[r] ==> !CoversColumn(options, r2, c2)
  {
    var u, k := Selected(t, options[r]), Conflicts(t, options[r]);
    forall c, r2, c2 | c in u && r2 in u[c] && c2 in options[r] ensures !CoversColumn(options, r2, c2) {
      assert r2 in t[c] && r2 !in k;
      assert Live(t, options, r2);
      assert c2 in t ==> r2 !in t[c2];
    }
  }

  /** Selecting a live row removes at least one column (the search terminates). */
  lemma SelectShrinks<C, R>(t: map<C, set<R>>, options: map<R, seq<C>>, r: R)
    requires Live(t, options, r)
    ensures |Selected(t, options[r])| < |t|
  {
    var u := Selected(t, options[r]);
    var c := options[r][0];
    assert u.Keys <= t.Keys - {c};
    SubsetCard(u.Keys, t.Keys - {c});
  }


  /** A non-empty table has a column with the fewest candidates. */
  lemma {:induction false} MinColumnExists<C, R>(t: map<C, set<R>>)
    requires t != map[]
    ensures exists c :: IsMinColumn(t, c)
    decreases t.Keys
  {
    var k :| k in t;
    var rest := t - {k};
    assert forall c' :: c' in t && c' != k ==> c' in rest && rest[c'] == t[c'];
    if rest == map[] {
      assert IsMinColumn(t, k);
    } else {
      MinColumnExists(rest);
      var m :| IsMinColumn(rest, m);
      if |t[k]| < |t[m]| {
        assert IsMinColumn(t, k);
      } else {
        assert IsMinColumn(t, m);
      }
    }
  }

  // ---------------------------------------------------------------------
  // Lemmas about exact covers
  // ---------------------------------------------------------------------

  /** The empty table has exactly one exact cover: no rows. */
  lemma EmptyTableCover<C, R>(options: map<R, seq<C>>, s: set<R>)
    ensures IsExactCover(map[], options, s) <==> s == {}
  {
    forall r | r in options && options[r] != [] ensures !Live(map[], options, r) {
      assert options[r][0] in options[r];
    }
  }

  /** A column nobody can cover leaves no exact cover. */
  lemma EmptyColumnNoCover<C, R>(t: map<C, set<R>>, options: map<R, seq<C>>, c: C, s: set<R>)
    requires c in t && t[c] == {}
    ensures !IsExactCover(t, options, s)
  {
    forall r | r in s && CoversColumn(options, r, c) ensures !Live(t, options, r) {
    }
  }

  /** A cover of the table after select(r), together with `r`, covers the table. */
  lemma ExtendCover<C, R>(t: map<C, set<R>>, options: map<R, seq<C>>, r: R, s: set<R>)
    requires Consistent(t, options) && Live(t, options, r)
    requires IsExactCover(Selected(t, options[r]), options, s)
    ensures r !in s
    ensures IsExactCover(t, options, s + {r})
  {
    var u := Selected(t, options[r]);
    assert options[r][0] in options[r] && options[r][0] !in u;
    forall r2 | r2 in s
      ensures Live(t, options, r2)
      ensures forall c :: CoversColumn(options, r2, c) ==> c in u && c !in options[r]
    {
      assert Live(u, options, r2);
    }
    forall c | c in t ensures exists r1 :: r1 in s + {r} && CoversColumn(options, r1, c) {
      if c in u {
        var r1 :| r1 in s && CoversColumn(options, r1, c);
        assert r1 in s + {r};
      } else {
        assert CoversColumn(options, r, c);
      }
    }
  }

  /** Taking a row out of an exact cover leaves an exact cover of the table
      after select of that row. */
  lemma ShrinkCover<C, R>(t: map<C, set<R>>, options: map<R, seq<C>>, r: R, s: set<R>)
    requires Consistent(t, options)
    requires IsExactCover(t, options, s) && r in s
    ensures IsExactCover(Selected(t, options[r]), options, s - {r})
  {
    var u, k := Selected(t, options[r]), Conflicts(t, options[r]);
    assert Live(t, options, r);
    forall r2 | r2 in s - {r} ensures Live(u, options, r2) {
      assert Live(t, options, r2);
      forall c | c in options[r] ensures !CoversColumn(options, r2, c) && r2 !in t[c] {
        assert CoversColumn(options, r, c);
      }
      assert r2 !in k;
    }
    forall c | c in u ensures exists r1 :: r1 in s - {r} && CoversColumn(options, r1, c) {
      var r1 :| r1 in s && CoversColumn(options, r1, c);
      assert r1 != r;
      assert r1 in s - {r};
    }
  }

  // ---------------------------------------------------------------------
  // Lemmas about the solver's loop
  // ---------------------------------------------------------------------

  /** `[r] + s` for every `s` of `ss`, in order. */
  ghost function Prefixed<R>(r: R, ss: seq<seq<R>>): (out: seq<seq<R>>)
  {
    seq(|ss|, i requires 0 <= i < |ss| => [r] + ss[i])
  }

  /** The base case: with no column left the only solution is the empty one. */
  lemma EmptyTableSolutions<C, R(!new)>(t: map<C, set<R>>, options: map<R, seq<C>>)
    requires |t| == 0
    ensures AllCovers(t, options, [[]])
  {
    assert t == map[];
    assert Elems<R>([]) == {};
    forall s | IsExactCover(t, options, s) ensures exists i :: 0 <= i < 1 && Elems([[]][i]) == s {
      EmptyTableCover(options, s);
      assert Elems([[]][0]) == s;
    }
    EmptyTableCover(options, {});
  }

  /** What the solver knows after trying the first `k` candidates of column `c`. */
  ghost predicate BranchesDone<C, R(!new)>(t: map<C, set<R>>, options: map<R, seq<C>>, c: C, candidates: seq<R>, k: nat, sols: seq<seq<R>>)
    requires k <= |candidates|
  {
    && (k == 0 ==> sols == [])
    && (forall i :: 0 <= i < |sols| ==> IsSolution(t, options, sols[i]) && sols[i] != [] && sols[i][0] in candidates[..k])
    && (forall s, j :: 0 <= j < k && IsExactCover(t, options, s) && candidates[j] in s ==>
          exists i :: 0 <= i < |sols| && Elems(sols[i]) == s)
    && (forall i, i' :: 0 <= i < i' < |sols| ==> Elems(sols[i]) != Elems(sols[i']))
  }

  /** Prefixing a live row to solutions of the table after selecting it gives
      solutions of the table, whose row sets are the old ones plus that row. */
  lemma PrefixedSolutions<C, R>(t: map<C, set<R>>, options: map<R, seq<C>>, r: R, sub: seq<seq<R>>, i: nat)
    requires Consistent(t, options) && Live(t, options, r)
    requires i < |sub| && IsSolution(Selected(t, options[r]), options, sub[i])
    ensures IsSolution(t, options, [r] + sub[i])
    ensures Elems([r] + sub[i]) == Elems(sub[i]) + {r} && r !in Elems(sub[i])
  {
    var s := sub[i];
    var sol := [r] + s;
    ExtendCover(t, options, r, Elems(s));
    ElemsCons(r, s);
    forall a, b | 0 <= a < b < |sol| ensures sol[a] != sol[b] {
      assert sol[b] == s[b - 1] && sol[b] in Elems(s);
      if a > 0 {
        assert sol[a] == s[a - 1];
      }
    }
  }

  /** Trying candidate `k`: prefixing it to every cover of the reduced table
      yields exactly the covers of the table that use it. */
  lemma BranchStep<C, R(!new)>(t: map<C, set<R>>, options: map<R, seq<C>>, c: C, candidates: seq<R>, k: nat,
                               sols: seq<seq<R>>, sub: seq<seq<R>>)
    requires Consistent(t, options) && c in t
    requires Elems(candidates) == t[c] && Distinct(candidates) && k < |candidates|
    requires Live(t, options, candidates[k])
    requires BranchesDone(t, options, c, candidates, k, sols)
    requires AllCovers(Selected(t, options[candidates[k]]), options, sub)
    ensures BranchesDone(t, options, c, candidates, k + 1, sols + Prefixed(candidates[k], sub))
  {
    var r := candidates[k];
    var more := Prefixed(r, sub);
    var all := sols + more;
    assert CoversColumn(options, r, c);
    assert candidates[..k + 1] == candidates[..k] + [r];
    forall i | 0 <= i < |more|
      ensures IsSolution(t, options, more[i]) && more[i] != [] && more[i][0] == r
      ensures Elems(more[i]) == Elems(sub[i]) + {r} && r !in Elems(sub[i])
    {
      PrefixedSolutions(t, options, r, sub, i);
    }
    forall i | 0 <= i < |all|
      ensures IsSolution(t, options, all[i]) && all[i] != [] && all[i][0] in candidates[..k + 1]
    {
      if i >= |sols| {
        assert all[i] == more[i - |sols|];
      }
    }
    CompletenessStep(t, options, c, candidates, k, sols, sub);
    forall j | 0 <= j < |candidates| ensures CoversColumn(options, candidates[j], c) {
      assert candidates[j] in Elems(candidates);
    }
    DistinctnessStep(t, options, c, candidates, k, sols, sub);
  }

  lemma CompletenessStep<C, R(!new)>(t: map<C, set<R>>, options: map<R, seq<C>>, c: C, candidates: seq<R>, k: nat,
                                     sols: seq<seq<R>>, sub: seq<seq<R>>)
    requires Consistent(t, options) && c in t
    requires k < |candidates| && Live(t, options, candidates[k])
    requires BranchesDone(t, options, c, candidates, k, sols)
    requires AllCovers(Selected(t, options[candidates[k]]), options, sub)
    ensures forall s, j :: 0 <= j < k + 1 && IsExactCover(t, options, s) && candidates[j] in s ==>
              exists i :: 0 <= i < |sols + Prefixed(candidates[k], sub)| && Elems((sols + Prefixed(candidates[k], sub))[i]) == s
  {
    var r := candidates[k];
    var more := Prefixed(r, sub);
    var all := sols + more;
    forall s, j | 0 <= j < k + 1 && IsExactCover(t, options, s) && candidates[j] in s
      ensures exists i :: 0 <= i < |all| && Elems(all[i]) == s
    {
      if j < k {
        var i :| 0 <= i < |sols| && Elems(sols[i]) == s;
        assert all[i] == sols[i];
      } else {
        ShrinkCover(t, options, r, s);
        var i :| 0 <= i < |sub| && Elems(sub[i]) == s - {r};
        assert all[|sols| + i] == [r] + sub[i];
        ElemsCons(r, sub[i]);
      }
    }
  }

  lemma DistinctnessStep<C, R(!new)>(t: map<C, set<R>>, options: map<R, seq<C>>, c: C, candidates: seq<R>, k: nat,
                                     sols: seq<seq<R>>, sub: seq<seq<R>>)
    requires c in t && Distinct(candidates) && k < |candidates|
    requires forall j :: 0 <= j < |candidates| ==> CoversColumn(options, candidates[j], c)
    requires forall i :: 0 <= i < |sols| ==> IsSolution(t, options, sols[i]) && sols[i] != [] && sols[i][0] in candidates[..k]
    requires forall i, i' :: 0 <= i < i' < |sols| ==> Elems(sols[i]) != Elems(sols[i'])
    requires forall i, i' :: 0 <= i < i' < |sub| ==> Elems(sub[i]) != Elems(sub[i'])
    requires forall i :: 0 <= i < |sub| ==> Elems([candidates[k]] + sub[i]) == Elems(sub[i]) + {candidates[k]} && candidates[k] !in Elems(sub[i])
    ensures forall i, i' :: 0 <= i < i' < |sols + Prefixed(candidates[k], sub)| ==>
              Elems((sols + Prefixed(candidates[k], sub))[i]) != Elems((sols + Prefixed(candidates[k], sub))[i'])
  {
    var r := candidates[k];
    var more := Prefixed(r, sub);
    var all := sols + more;
    forall i, i' | 0 <= i < i' < |all| ensures Elems(all[i]) != Elems(all[i']) {
      if i' >= |sols| {
        var m' := i' - |sols|;
        assert all[i'] == [r] + sub[m'];
        if i >= |sols| {
          var m := i - |sols|;
          assert all[i] == [r] + sub[m];
          assert Elems(sub[m]) != Elems(sub[m']);
        } else {
          assert all[i] == sols[i];
          var r0 := sols[i][0];
          assert r0 in candidates[..k];
          var j :| 0 <= j < k && candidates[j] == r0;
          assert r in Elems(all[i']);
          OtherBranch(t, options, c, r0, r, sols[i], all[i']);
        }
      }
    }
  }

  /** Two solutions holding different rows of the same column are different
      sets, since an exact cover holds one row per column. */
  lemma OtherBranch<C, R>(t: map<C, set<R>>, options: map<R, seq<C>>, c: C, r0: R, r: R, a: seq<R>, b: seq<R>)
    requires c in t && r0 != r
    requires CoversColumn(options, r0, c) && CoversColumn(options, r, c)
    requires IsSolution(t, options, a) && a != [] && a[0] == r0 && r in Elems(b)
    ensures Elems(a) != Elems(b)
  {
    assert r0 in Elems(a);
  }

  /** A column with no candidate ends the branch with no solution. */
  lemma NoCandidatesNoSolutions<C, R(!new)>(t: map<C, set<R>>, options: map<R, seq<C>>, c: C, candidates: seq<R>, sols: seq<seq<R>>)
    requires IsMinColumn(t, c) && |candidates| == |t[c]|
    requires BranchesDone(t, options, c, candidates, |candidates|, sols)
    ensures forall c' :: c' in t && t[c'] == {} ==> sols == []
  {
    if exists c' :: c' in t && t[c'] == {} {
      var c' :| c' in t && t[c'] == {};
      assert |t[c]| <= |t[c']| == 0;
    }
  }

  /** Once every candidate of the column has been tried, every exact cover has
      been found (each one must use some candidate of that column). */
  lemma AllBranchesDone<C, R(!new)>(t: map<C, set<R>>, options: map<R, seq<C>>, c: C, candidates: seq<R>, sols: seq<seq<R>>)
    requires Consistent(t, options) && c in t
    requires Elems(candidates) == t[c]
    requires BranchesDone(t, options, c, candidates, |candidates|, sols)
    ensures AllCovers(t, options, sols)
  {
    forall s | IsExactCover(t, options, s) ensures exists i :: 0 <= i < |sols| && Elems(sols[i]) == s {
      var r :| r in s && CoversColumn(options, r, c);
      assert Live(t, options, r);
      assert r in Elems(candidates);
      var j :| 0 <= j < |candidates| && candidates[j] == r;
    }
  }

  /** The yield loop of the solver: `solution + s` for each `s` found below,
      in the order found. */
  method PrefixEach<R>(r: R, sub: seq<seq<R>>) returns (found: seq<seq<R>>)
    ensures |found| == |sub|
    ensures forall i :: 0 <= i < |sub| ==> found[i] == [r] + sub[i]
  {
    found := [];
    for j := 0 to |sub|
      invariant |found| == j
      invariant forall i :: 0 <= i < j ==> found[i] == [r] + sub[i]
    {
      found := found + [[r] + sub[j]];
    }
  }

  // ---------------------------------------------------------------------
  // The tables and the search
  // ---------------------------------------------------------------------

  class CoverTables<C(==), R(==,!new)> {
    var constraints: map<C, set<R>>
    const options: map<R, seq<C>>

    ghost predicate Valid()
      reads this
    {
      WellFormed(options) && Consistent(constraints, options)
    }

    constructor (constraints: map<C, set<R>>, options: map<R, seq<C>>)
      requires WellFormed(options) && Consistent(constraints, options)
      ensures Valid()
      ensures this.constraints == constraints && this.options == options
    {
      this.constraints := constraints;
      this.options := options;
    }

    /** Takes row `r2` out of the candidate set of each of its columns other
        than `c`. */
    method DetachRow(r2: R, c: C)
      requires r2 in options && Distinct(options[r2])
      requires forall c2 :: c2 in options[r2] && c2 != c ==> c2 in constraints && r2 in constraints[c2]
      modifies this
      ensures constraints.Keys == old(constraints).Keys
      ensures forall c' :: c' in constraints ==>
                constraints[c'] == if c' != c && c' in options[r2] then old(constraints)[c'] - {r2} else old(constraints)[c']
    {
      var cols := options[r2];
      for j := 0 to |cols|
        invariant constraints.Keys == old(constraints).Keys
        invariant forall c' :: c' in constraints ==>
                    constraints[c'] == if c' != c && c' in cols[..j] then old(constraints)[c'] - {r2} else old(constraints)[c']
      {
        var c2 := cols[j];
        if c2 != c {
          assert c2 !in cols[..j];
          // set.remove raises when the element is missing; it never is here
          assert r2 in constraints[c2];
          constraints := constraints[c2 := constraints[c2] - {r2}];
        }
      }
      assert cols[..|cols|] == cols;
    }

    /** Puts row `r2` back into the candidate set of each of its columns
        other than `c`. */
    method AttachRow(r2: R, c: C)
      requires r2 in options
      requires forall c2 :: c2 in options[r2] && c2 != c ==> c2 in constraints
      modifies this
      ensures constraints.Keys == old(constraints).Keys
      ensures forall c' :: c' in constraints ==>
                constraints[c'] == if c' != c && c' in options[r2] then old(constraints)[c'] + {r2} else old(constraints)[c']
    {
      var cols := options[r2];
      for j := 0 to |cols|
        invariant constraints.Keys == old(constraints).Keys
        invariant forall c' :: c' in constraints ==>
                    constraints[c'] == if c' != c && c' in cols[..j] then old(constraints)[c'] + {r2} else old(constraints)[c']
      {
        var c2 := cols[j];
        if c2 != c {
          constraints := constraints[c2 := constraints[c2] + {r2}];
        }
      }
      assert cols[..|cols|] == cols;
    }

    /** One pass of select's outer loop: detach every row of column `c` from its
        other columns, then pop `c`, returning its candidate set. */
    method CoverColumn(c: C) returns (saved: set<R>)
      requires Valid() && c in constraints
      modifies this
      ensures constraints == Cover(old(constraints), c)
      ensures saved == old(constraints)[c]
    {
      ghost var u := constraints;
      var rows := constraints[c];
      var done: set<R> := {};
      while done != rows
        invariant done <= rows
        invariant constraints.Keys == u.Keys && constraints[c] == rows
        invariant forall c' :: c' in u && c' != c ==> constraints[c'] == u[c'] - done
        decreases |rows - done|
      {
        var r2 :| r2 in rows - done;
        assert CoversColumn(options, r2, c) && Live(u, options, r2);
        DetachRow(r2, c);
        forall c' | c' in u && c' != c ensures constraints[c'] == u[c'] - (done + {r2}) {
          if r2 in u[c'] {
            assert CoversColumn(options, r2, c');
          }
        }
        done := done + {r2};
      }
      saved := constraints[c];
      constraints := constraints - {c};
    }

    /** One pass of deselect's outer loop: put column `c` back with `saved`, then
        re-add each of those rows to its other columns. */
    method UncoverColumn(c: C, saved: set<R>)
      requires forall r2 :: r2 in saved ==> r2 in options && forall c2 :: c2 in options[r2] && c2 != c ==> c2 in constraints
      modifies this
      ensures constraints == Uncover(old(constraints), options, c, saved)
    {
      ghost var u := constraints;
      constraints := constraints[c := saved];
      var done: set<R> := {};
      while done != saved
        invariant done <= saved
        invariant constraints.Keys == u.Keys + {c} && constraints[c] == saved
        invariant forall c' :: c' in u && c' != c ==> constraints[c'] == u[c'] + RowsOn(done, options, c')
        decreases |saved - done|
      {
        var r2 :| r2 in saved - done;
        ghost var prev := constraints;
        AttachRow(r2, c);
        AttachStep(u, options, c, done, r2, prev, constraints);
        done := done + {r2};
      }
    }

    /** select: covers the columns of `r` in order and returns their popped sets. */
    method Select(r: R) returns (cols: seq<set<R>>)
      requires Valid() && r in options
      requires forall c :: c in options[r] ==> c in constraints
      modifies this
      ensures Valid()
      ensures constraints == Selected(old(constraints), options[r])
      ensures cols == SavedSets(old(constraints), options[r])
    {
      ghost var t := constraints;
      var rc := options[r];
      SelectedNothing(t);
      cols := [];
      for i := 0 to |rc|
        invariant Valid()
        invariant constraints == Selected(t, rc[..i])
        invariant cols == SavedSets(t, rc)[..i]
      {
        var c := rc[i];
        CoverStep(t, rc, i);
        var saved := CoverColumn(c);
        cols := cols + [saved];
        SelectedConsistent(t, options, rc[..i + 1]);
      }
      assert rc[..|rc|] == rc;
    }

    /** deselect: walks the columns of `r` backwards, each time popping the last
        saved set; restores the table `select(r)` started from. */
    method Deselect(r: R, cols: seq<set<R>>, ghost before: map<C, set<R>>)
      requires Consistent(before, options)
      requires r in options && Distinct(options[r])
      requires forall c :: c in options[r] ==> c in before
      requires constraints == Selected(before, options[r])
      requires cols == SavedSets(before, options[r])
      modifies this
      ensures constraints == before
    {
      var rc := options[r];
      var stack := cols;
      var i := |rc|;
      assert rc[..|rc|] == rc;
      while i > 0
        invariant 0 <= i <= |rc|
        invariant stack == SavedSets(before, rc)[..i]
        invariant constraints == Selected(before, rc[..i])
      {
        i := i - 1;
        var c := rc[i];
        var saved := stack[|stack| - 1];
        stack := stack[..|stack| - 1];
        CoverStep(before, rc, i);
        ghost var x := Selected(before, rc[..i]);
        SelectedConsistent(before, options, rc[..i]);
        SavedRowsLive(x, options, c);
        UncoverColumn(c, saved);
        UncoverCover(x, options, c);
      }
      SelectedNothing(before);
    }

    /** solve_exact_cover: every exact cover of the table, as lists of rows. */
    method Solve() returns (sols: seq<seq<R>>)
      requires Valid()
      modifies this
      ensures Valid() && constraints == old(constraints)
      ensures AllCovers(old(constraints), options, sols)
      ensures old(constraints) == map[] ==> sols == [[]]
      ensures forall c :: c in old(constraints) && old(constraints)[c] == {} ==> sols == []
      ensures old(constraints) != map[] ==>
                exists c :: IsMinColumn(old(constraints), c) &&
                  forall i :: 0 <= i < |sols| ==> sols[i] != [] && sols[i][0] in old(constraints)[c]
      decreases |constraints|
    {
      ghost var t := constraints;
      if |constraints| == 0 {
        EmptyTableSolutions(t, options);
        return [[]];
      }
      MinColumnExists(constraints);
      var c :| IsMinColumn(constraints, c);
      var candidates := ListOf(constraints[c]);
      sols := [];
      for k := 0 to |candidates|
        invariant Valid() && constraints == t
        invariant BranchesDone(t, options, c, candidates, k, sols)
      {
        var r := candidates[k];
        assert r in Elems(candidates);
        assert Live(t, options, r);
        var cols := Select(r);
        SelectShrinks(t, options, r);
        var sub := Solve();
        var found := PrefixEach(r, sub);
        Deselect(r, cols, t);
        BranchStep(t, options, c, candidates, k, sols, sub);
        assert found == Prefixed(r, sub);
        sols := sols + found;
      }
      AllBranchesDone(t, options, c, candidates, sols);
      NoCandidatesNoSolutions(t, options, c, candidates, sols);
    }
  }
}
