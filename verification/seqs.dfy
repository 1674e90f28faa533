/** Table primitives over sequences of rows.

 A table is a sequence of rows in storage order. `First` is the first row a
 query selects (what `List.Find` and a scalar query's first row give in the
 source), `Filter` is a `where` clause, and `UniqueBy` says that no two rows
 of a table agree on a key (a primary key or a unique constraint the code
 enforces by hand).
 */
module Seqs {
  import opened Errors

  /** The first element satisfying `p`, if any. */
  function First<T>(xs: seq<T>, p: T -> bool): (r: Option<T>)
    ensures r.Some? ==> r.value in xs && p(r.value)
    ensures r.None? <==> forall i :: 0 <= i < |xs| ==> !p(xs[i])
  {
    if |xs| == 0 then None
    else if p(xs[0]) then Some(xs[0])
    else First(xs[1..], p)
  }

  /** The elements satisfying `keep`, in their original order. */
  function Filter<T>(xs: seq<T>, keep: T -> bool): (r: seq<T>)
    ensures |r| <= |xs|
    ensures forall i :: 0 <= i < |r| ==> r[i] in xs && keep(r[i])
    ensures forall i :: 0 <= i < |xs| && keep(xs[i]) ==> xs[i] in r
  {
    if |xs| == 0 then []
    else if keep(xs[0]) then [xs[0]] + Filter(xs[1..], keep)
    else Filter(xs[1..], keep)
  }

  /** An element that satisfies `p` after only elements that do not is the one `First` finds. */
  lemma {:induction false} FirstAt<T>(xs: seq<T>, p: T -> bool, k: int)
    requires 0 <= k < |xs| && p(xs[k])
    requires forall j :: 0 <= j < k ==> !p(xs[j])
    ensures First(xs, p) == Some(xs[k])
  {
    if k > 0 {
      assert xs[1..][k - 1] == xs[k];
      FirstAt(xs[1..], p, k - 1);
    }
  }

  /** Where `First` found its element: the first position satisfying `p`. */
  lemma {:induction false} FirstIndex<T>(xs: seq<T>, p: T -> bool) returns (k: int)
    requires First(xs, p).Some?
    ensures 0 <= k < |xs| && First(xs, p) == Some(xs[k]) && p(xs[k])
    ensures forall j :: 0 <= j < k ==> !p(xs[j])
  {
    if p(xs[0]) {
      k := 0;
    } else {
      var k' := FirstIndex(xs[1..], p);
      k := k' + 1;
      assert xs[k] == xs[1..][k'];
      forall j | 0 <= j < k ensures !p(xs[j]) {
        if j > 0 { assert xs[j] == xs[1..][j - 1]; }
      }
    }
  }

  /** No two positions of `xs` share a key. */
  ghost predicate UniqueBy<T, K>(xs: seq<T>, key: T -> K) {
    forall i, j :: 0 <= i < j < |xs| ==> key(xs[i]) != key(xs[j])
  }

  /** Removing rows never creates a duplicate key. */
  lemma {:induction false} FilterPreservesUnique<T, K>(xs: seq<T>, keep: T -> bool, key: T -> K)
    requires UniqueBy(xs, key)
    ensures UniqueBy(Filter(xs, keep), key)
  {
    if |xs| > 0 {
      var rest := Filter(xs[1..], keep);
      assert UniqueBy(xs[1..], key) by {
        forall i, j | 0 <= i < j < |xs[1..]|
          ensures key(xs[1..][i]) != key(xs[1..][j])
        {
          assert xs[1..][i] == xs[i + 1] && xs[1..][j] == xs[j + 1];
        }
      }
      FilterPreservesUnique(xs[1..], keep, key);
      if keep(xs[0]) {
        var r := [xs[0]] + rest;
        forall i, j | 0 <= i < j < |r|
          ensures key(r[i]) != key(r[j])
        {
          if i == 0 {
            assert r[j] in xs[1..];
            var k :| 0 <= k < |xs[1..]| && xs[1..][k] == r[j];
            assert xs[k + 1] == r[j];
          } else {
            assert r[i] == rest[i - 1] && r[j] == rest[j - 1];
          }
        }
      }
    }
  }

  /** Two key-unique tables with no key in common concatenate to a key-unique table. */
  lemma UniqueConcat<T, K>(xs: seq<T>, ys: seq<T>, key: T -> K)
    requires UniqueBy(xs, key) && UniqueBy(ys, key)
    requires forall i, j :: 0 <= i < |xs| && 0 <= j < |ys| ==> key(xs[i]) != key(ys[j])
    ensures UniqueBy(xs + ys, key)
  {
    var zs := xs + ys;
    forall i, j | 0 <= i < j < |zs| ensures key(zs[i]) != key(zs[j]) {
      if |xs| <= i {
        assert zs[i] == ys[i - |xs|] && zs[j] == ys[j - |xs|];
      } else if |xs| <= j {
        assert zs[j] == ys[j - |xs|];
      }
    }
  }

  /** When keys are unique, two positions with the same key are the same position. */
  lemma UniqueKeyIndex<T, K>(xs: seq<T>, key: T -> K, i: int, j: int)
    requires UniqueBy(xs, key)
    requires 0 <= i < |xs| && 0 <= j < |xs| && key(xs[i]) == key(xs[j])
    ensures i == j
  {
  }

  /** When keys are unique, a condition that row `i` meets and that pins the key
      to row `i`'s key selects row `i`. */
  lemma FirstOfUniqueKey<T, K>(xs: seq<T>, key: T -> K, k: K, i: int, p: T -> bool)
    requires UniqueBy(xs, key)
    requires 0 <= i < |xs| && key(xs[i]) == k && p(xs[i])
    requires forall x :: p(x) ==> key(x) == k
    ensures First(xs, p) == Some(xs[i])
  {
    var r := First(xs, p);
    assert p(xs[i]);
    var j :| 0 <= j < |xs| && xs[j] == r.value;
    if j < i {
      assert key(xs[j]) != key(xs[i]);
    } else if i < j {
      assert key(xs[i]) != key(xs[j]);
    }
  }

  /** A filter that keeps everything is the identity. */
  lemma {:induction false} FilterKeepsAll<T>(xs: seq<T>, keep: T -> bool)
    requires forall i :: 0 <= i < |xs| ==> keep(xs[i])
    ensures Filter(xs, keep) == xs
  {
    if |xs| > 0 {
      FilterKeepsAll(xs[1..], keep);
      assert [xs[0]] + xs[1..] == xs;
    }
  }

  /** A filter that rejects exactly the element at `j` removes that element only. */
  lemma {:induction false} FilterDropsOne<T>(xs: seq<T>, keep: T -> bool, j: int)
    requires 0 <= j < |xs| && !keep(xs[j])
    requires forall i :: 0 <= i < |xs| && i != j ==> keep(xs[i])
    ensures Filter(xs, keep) == xs[..j] + xs[j + 1..]
  {
    var tail := xs[1..];
    if j == 0 {
      assert forall i :: 0 <= i < |tail| ==> keep(tail[i]) by {
        forall i | 0 <= i < |tail| ensures keep(tail[i]) {
          assert tail[i] == xs[i + 1];
        }
      }
      FilterKeepsAll(tail, keep);
      assert Filter(xs, keep) == Filter(tail, keep);
    } else {
      assert keep(xs[0]);
      forall i | 0 <= i < |tail| && i != j - 1 ensures keep(tail[i]) {
        assert tail[i] == xs[i + 1];
      }
      FilterDropsOne(tail, keep, j - 1);
      assert Filter(xs, keep) == [xs[0]] + Filter(tail, keep);
      DropOneCons(xs, j);
    }
  }

  lemma DropOneCons<T>(xs: seq<T>, j: int)
    requires 0 < j < |xs|
    ensures [xs[0]] + (xs[1..][..j - 1] + xs[1..][j..]) == xs[..j] + xs[j + 1..]
  {
    assert xs[1..][..j - 1] == xs[1..j];
    assert xs[1..][j..] == xs[j + 1..];
    assert [xs[0]] + xs[1..j] == xs[..j];
  }

  /** Filters that agree on every element of `xs` select the same rows. */
  lemma {:induction false} FilterExt<T>(xs: seq<T>, p: T -> bool, q: T -> bool)
    requires forall i :: 0 <= i < |xs| ==> p(xs[i]) == q(xs[i])
    ensures Filter(xs, p) == Filter(xs, q)
  {
    if |xs| > 0 {
      FilterExt(xs[1..], p, q);
    }
  }

  /** Two `where` clauses run one after the other select what their conjunction selects. */
  lemma {:induction false} FilterFilter<T>(xs: seq<T>, p: T -> bool, q: T -> bool, both: T -> bool)
    requires forall i :: 0 <= i < |xs| ==> both(xs[i]) == (p(xs[i]) && q(xs[i]))
    ensures Filter(Filter(xs, p), q) == Filter(xs, both)
  {
    if |xs| > 0 {
      FilterFilter(xs[1..], p, q, both);
      if p(xs[0]) {
        assert Filter(xs, p) == [xs[0]] + Filter(xs[1..], p);
        assert Filter(xs, p)[1..] == Filter(xs[1..], p);
      }
    }
  }
}
