/**
 * The row-id lists held in the index's buckets (fastutil `IntArrayList`):
 * a sequence of row ids that grows by `add` (append) and shrinks by
 * `rem` (removal of the first occurrence of a value).
 */
module Buckets {

  /** No row id occurs twice. */
  ghost predicate Distinct(s: seq<nat>)
  {
    forall x: nat :: multiset(s)[x] <= 1
  }

  /**
   * `IntArrayList.rem(x)`: removes the first occurrence of x, keeping the
   * order of the rest; a list without x is returned unchanged.
   */
  function RemoveFirst(s: seq<nat>, x: nat): (r: seq<nat>)
    ensures multiset(r) == multiset(s) - multiset{x}
    ensures x !in s ==> r == s
    ensures x in s ==> |r| == |s| - 1
  {
    if s == [] then []
    else
      assert s == [s[0]] + s[1..];
      if s[0] == x then s[1..] else [s[0]] + RemoveFirst(s[1..], x)
  }

  /**
   * RemoveFirst cuts the list at its first x: with x at position i and
   * nowhere before it, the result is the list without position i.
   */
  lemma {:induction false} RemoveFirstCutsAtFirst(s: seq<nat>, x: nat, i: nat)
    requires i < |s| && s[i] == x && x !in s[..i]
    ensures RemoveFirst(s, x) == s[..i] + s[i + 1..]
  {
    if i > 0 {
      assert s[0] == s[..i][0];
      assert s[1..][..i - 1] == s[1..i];
      RemoveFirstCutsAtFirst(s[1..], x, i - 1);
      assert s[..i] == [s[0]] + s[1..i];
      assert s[i + 1..] == s[1..][i..];
    }
  }

  /**
   * Removing x from a duplicate-free list leaves a duplicate-free list without
   * x that still holds every other id it held.
   */
  lemma DistinctRemoveFirst(s: seq<nat>, x: nat)
    requires Distinct(s)
    ensures Distinct(RemoveFirst(s, x))
    ensures x !in RemoveFirst(s, x)
    ensures forall y: nat | y != x :: y in RemoveFirst(s, x) <==> y in s
  {
    var r: seq<nat> := RemoveFirst(s, x);
    assert multiset(r)[x] == 0;
    forall y: nat | y != x
      ensures y in r <==> y in s
    {
      assert multiset(r)[y] == multiset(s)[y];
    }
  }

  /** Appending an id not yet present keeps a list duplicate-free. */
  lemma DistinctAppend(s: seq<nat>, x: nat)
    requires Distinct(s) && x !in s
    ensures Distinct(s + [x])
  {
    forall y: nat
      ensures multiset(s + [x])[y] <= 1
    {
      assert multiset(s + [x]) == multiset(s) + multiset{x};
    }
  }

  /** Two duplicate-free lists with no id in common concatenate to a duplicate-free list. */
  lemma DistinctConcat(a: seq<nat>, b: seq<nat>)
    requires Distinct(a) && Distinct(b)
    requires forall x: nat | x in b :: x !in a
    ensures Distinct(a + b)
  {
    forall y: nat
      ensures multiset(a + b)[y] <= 1
    {
      assert multiset(a + b) == multiset(a) + multiset(b);
      if y in b {
        assert multiset(a)[y] == 0;
      } else {
        assert multiset(b)[y] == 0;
      }
    }
  }

  /** In a duplicate-free list, the element at position j does not occur before j. */
  lemma DistinctNotInPrefix(s: seq<nat>, j: nat)
    requires Distinct(s) && j < |s|
    ensures s[j] !in s[..j]
  {
    assert s == s[..j] + [s[j]] + s[j + 1..];
    assert multiset(s) == multiset(s[..j]) + multiset{s[j]} + multiset(s[j + 1..]);
    assert multiset(s)[s[j]] <= 1;
  }
}
