/**
 * Order-preserving selection of the elements of a sequence whose positions lie in
 * a set, and the index table that goes with it. This is the bookkeeping
 * behind every "copy the kept elements and remember where each one went" loop of
 * the engine.
 */
module Selection {
  /** The positions 0 .. n-1 that are not in s. */
  function Outside(n: nat, s: set<int>): set<int>
  {
    set k | 0 <= k < n && k !in s
  }

  /** Number of positions below i that are kept. */
  function Rank(keep: set<int>, i: nat): nat
  {
    if i == 0 then 0 else Rank(keep, i - 1) + (if i - 1 in keep then 1 else 0)
  }

  /** The elements of xs at kept positions, in their original order. */
  function Select<T>(xs: seq<T>, keep: set<int>): (r: seq<T>)
    ensures |r| == Rank(keep, |xs|)
  {
    if xs == [] then []
    else Select(xs[..|xs| - 1], keep) + (if |xs| - 1 in keep then [xs[|xs| - 1]] else [])
  }

  lemma SelectStep<T>(xs: seq<T>, keep: set<int>, i: nat)
    requires i < |xs|
    ensures Select(xs[..i + 1], keep) == Select(xs[..i], keep) + (if i in keep then [xs[i]] else [])
  {
    assert xs[..i + 1][..i] == xs[..i];
  }

  /**
   * An index table after the first i positions: each kept position below i holds
   * base plus its rank (where its copy went), every other entry still holds -1.
   */
  ghost predicate TableSoFar(table: seq<int>, keep: set<int>, i: nat, base: int)
  {
    forall k :: 0 <= k < |table| ==> table[k] == if k < i then Slot(keep, k, base) else -1
  }

  /** The table entry of position i: base plus its rank if it is kept, -1 otherwise. */
  function Slot(keep: set<int>, i: nat, base: int): int
  {
    if i in keep then base + Rank(keep, i) else -1
  }

  /** The finished table: kept positions at base plus their rank, the others -1. */
  function Placement(keep: set<int>, n: nat, base: int): (t: seq<int>)
    ensures |t| == n
  {
    seq(n, i requires 0 <= i < n => Slot(keep, i, base))
  }

  /**
   * A copy loop after the first i positions of xs: `placed` holds the kept elements
   * so far, in order, and `table` records where each of them went.
   */
  ghost predicate CopiedSoFar<T>(xs: seq<T>, keep: set<int>, i: nat, placed: seq<T>, table: seq<int>, base: int)
  {
    i <= |xs| == |table| && placed == Select(xs[..i], keep) && TableSoFar(table, keep, i, base)
  }

  /** A copy loop that starts with nothing placed and a table of -1. */
  lemma CopyStart<T>(xs: seq<T>, keep: set<int>, base: int)
    ensures CopiedSoFar(xs, keep, 0, [], seq(|xs|, _ => -1), base)
  {
    assert xs[..0] == [];
  }

  /** A finished copy loop holds the selection and the finished table. */
  lemma CopyDone<T>(xs: seq<T>, keep: set<int>, placed: seq<T>, table: seq<int>, base: int)
    requires CopiedSoFar(xs, keep, |xs|, placed, table, base)
    ensures placed == Select(xs, keep) && table == Placement(keep, |xs|, base)
  {
    assert xs[..|xs|] == xs;
    var n := |xs|;
    forall k | 0 <= k < n
      ensures table[k] == Placement(keep, n, base)[k]
    {
    }
  }

  /**
   * One step of a copy loop: the element at position i is copied, and base plus its
   * new position recorded, exactly when i is kept.
   */
  method Visit<T>(xs: seq<T>, keep: set<int>, table: seq<int>, i: nat, placed: seq<T>, base: int)
    returns (placed': seq<T>, table': seq<int>)
    requires i < |xs| && CopiedSoFar(xs, keep, i, placed, table, base)
    ensures CopiedSoFar(xs, keep, i + 1, placed', table', base)
    ensures i in keep ==> |placed'| - 1 == Rank(keep, i)
  {
    SelectStep(xs, keep, i);
    placed', table' := placed, table;
    if i in keep {
      placed' := placed + [xs[i]];
      table' := table[i := base + |placed'| - 1];
    }
  }

  lemma {:induction false} RankMonotone(keep: set<int>, i: nat, j: nat)
    requires i <= j
    ensures Rank(keep, i) <= Rank(keep, j)
    ensures i < j && i in keep ==> Rank(keep, i) < Rank(keep, j)
  {
    if i < j {
      RankMonotone(keep, i, j - 1);
    }
  }

  /** A kept element sits at its rank in the selection. */
  lemma {:induction false} SelectAt<T>(xs: seq<T>, keep: set<int>, i: nat)
    requires i < |xs| && i in keep
    ensures Rank(keep, i) < |Select(xs, keep)|
    ensures Select(xs, keep)[Rank(keep, i)] == xs[i]
  {
    var n := |xs| - 1;
    if i < n {
      SelectAt(xs[..n], keep, i);
      assert xs[..n][i] == xs[i];
    }
  }

  /** Every element of the selection comes from exactly one kept position. */
  lemma {:induction false} SelectOrigin<T>(xs: seq<T>, keep: set<int>, k: nat)
    requires k < |Select(xs, keep)|
    ensures exists i :: 0 <= i < |xs| && i in keep && Rank(keep, i) == k
  {
    var n := |xs| - 1;
    if k < |Select(xs[..n], keep)| {
      SelectOrigin(xs[..n], keep, k);
    } else {
      assert n in keep && Rank(keep, n) == k;
    }
  }

  lemma {:induction false} RankInjective(keep: set<int>, i: nat, j: nat)
    requires i in keep && j in keep && Rank(keep, i) == Rank(keep, j)
    ensures i == j
  {
    if i < j {
      RankMonotone(keep, i, j);
    } else if j < i {
      RankMonotone(keep, j, i);
    }
  }

  /** Rank only looks at positions below n. */
  lemma {:induction false} RankAgree(a: set<int>, b: set<int>, n: nat)
    requires forall i :: 0 <= i < n ==> (i in a <==> i in b)
    ensures Rank(a, n) == Rank(b, n)
  {
    if n > 0 {
      RankAgree(a, b, n - 1);
    }
  }

  lemma {:induction false} RankNone(keep: set<int>, n: nat)
    requires forall i :: 0 <= i < n ==> i !in keep
    ensures Rank(keep, n) == 0
  {
    if n > 0 {
      RankNone(keep, n - 1);
    }
  }

  /** For a set of positions below n, the rank up to n is its size. */
  lemma {:induction false} RankCard(keep: set<int>, n: nat)
    requires forall x :: x in keep ==> 0 <= x < n
    ensures Rank(keep, n) == |keep|
  {
    if n == 0 {
      assert forall x :: x !in keep;
      assert keep == {};
    } else {
      var rest := keep - {n - 1};
      RankCard(rest, n - 1);
      RankAgree(keep, rest, n - 1);
      if n - 1 in keep {
        assert keep == rest + {n - 1};
      } else {
        assert keep == rest;
      }
    }
  }

  /** Inclusion-exclusion for ranks. */
  lemma {:induction false} RankUnionInter(a: set<int>, b: set<int>, n: nat)
    ensures Rank(a + b, n) + Rank(a * b, n) == Rank(a, n) + Rank(b, n)
  {
    if n > 0 {
      RankUnionInter(a, b, n - 1);
    }
  }

  lemma {:induction false} RankFull(keep: set<int>, n: nat)
    requires forall i :: 0 <= i < n ==> i in keep
    ensures Rank(keep, n) == n
  {
    if n > 0 {
      RankFull(keep, n - 1);
    }
  }

  /** Of the n positions below n, all but the |s| members of s lie outside s. */
  lemma RankOutside(s: set<int>, n: nat)
    requires forall x :: x in s ==> 0 <= x < n
    ensures Rank(Outside(n, s), n) + |s| == n
  {
    var out := Outside(n, s);
    RankUnionInter(out, s, n);
    RankFull(out + s, n);
    RankNone(out * s, n);
    RankCard(s, n);
  }

  /**
   * Slot with base 0 is injective on the kept positions of xs and finds each kept
   * element where it was copied; SelectSource gives the converse.
   */
  lemma SelectBijection<T>(xs: seq<T>, keep: set<int>)
    ensures forall i :: 0 <= i < |xs| && i in keep ==>
      0 <= Slot(keep, i, 0) < |Select(xs, keep)| && Select(xs, keep)[Slot(keep, i, 0)] == xs[i]
    ensures forall i, j :: (0 <= i < |xs| && 0 <= j < |xs| && i in keep && j in keep &&
      Slot(keep, i, 0) == Slot(keep, j, 0)) ==> i == j
  {
    forall i | 0 <= i < |xs| && i in keep
      ensures 0 <= Slot(keep, i, 0) < |Select(xs, keep)| && Select(xs, keep)[Slot(keep, i, 0)] == xs[i]
    {
      SelectAt(xs, keep, i);
    }
    forall i, j | 0 <= i < |xs| && 0 <= j < |xs| && i in keep && j in keep &&
      Slot(keep, i, 0) == Slot(keep, j, 0)
      ensures i == j
    {
      RankInjective(keep, i, j);
    }
  }

  /** y, at position k of a selection of xs, is a kept element of xs whose slot (base 0) is k. */
  ghost predicate SelectedFrom<T>(xs: seq<T>, keep: set<int>, y: T, k: int)
  {
    exists i :: 0 <= i < |xs| && i in keep && Slot(keep, i, 0) == k && xs[i] == y
  }

  /** Every element of a selection is a kept element, found back through its slot. */
  lemma SelectSource<T>(xs: seq<T>, keep: set<int>, k: nat) returns (i: nat)
    requires k < |Select(xs, keep)|
    ensures i < |xs| && i in keep && Slot(keep, i, 0) == k && Select(xs, keep)[k] == xs[i]
  {
    SelectOrigin(xs, keep, k);
    i :| 0 <= i < |xs| && i in keep && Rank(keep, i) == k;
    SelectAt(xs, keep, i);
  }
}
