/** Optional values (JavaScript `undefined` / `null`) and order-preserving subsequences. */
module Wrappers {

  datatype Option<+T> = None | Some(value: T)

  /** a can be obtained from b by deleting elements, keeping the order of the rest. */
  predicate IsSubsequence<T(==)>(a: seq<T>, b: seq<T>)
    decreases |b|
  {
    if a == [] then true
    else if b == [] then false
    else if a[0] == b[0] then IsSubsequence(a[1..], b[1..])
    else IsSubsequence(a, b[1..])
  }

  /** Every element of a subsequence comes from the sequence it was taken from. */
  lemma {:induction false} SubsequenceElements<T>(a: seq<T>, b: seq<T>)
    requires IsSubsequence(a, b)
    ensures |a| <= |b|
    ensures forall x :: x in a ==> x in b
    decreases |b|
  {
    if a != [] {
      if a[0] == b[0] {
        SubsequenceElements(a[1..], b[1..]);
        assert forall x :: x in a ==> x == a[0] || x in a[1..];
        assert forall x :: x in b[1..] ==> x in b;
      } else {
        SubsequenceElements(a, b[1..]);
        assert forall x :: x in b[1..] ==> x in b;
      }
    }
  }

  /** Dropping the first element of a subsequence leaves a subsequence. */
  lemma {:induction false} SubsequenceTail<T>(a: seq<T>, b: seq<T>)
    requires a != [] && IsSubsequence(a, b)
    ensures IsSubsequence(a[1..], b)
    decreases |b|, 0
  {
    if a[0] != b[0] {
      SubsequenceTail(a, b[1..]);
      SubsequenceSkip(a[1..], b[1..], b[0]);
      assert b == [b[0]] + b[1..];
    } else {
      SubsequenceSkip(a[1..], b[1..], b[0]);
      assert b == [b[0]] + b[1..];
    }
  }

  /** A subsequence of b is a subsequence of x followed by b. */
  lemma {:induction false} SubsequenceSkip<T>(a: seq<T>, b: seq<T>, x: T)
    requires IsSubsequence(a, b)
    ensures IsSubsequence(a, [x] + b)
    decreases |b|, 1
  {
    if a != [] && a[0] == x {
      SubsequenceTail(a, b);
      assert ([x] + b)[1..] == b;
    } else {
      assert ([x] + b)[1..] == b;
    }
  }

  /** Keeping a common first element keeps a subsequence. */
  lemma SubsequenceKeep<T>(a: seq<T>, b: seq<T>, x: T)
    requires IsSubsequence(a, b)
    ensures IsSubsequence([x] + a, [x] + b)
  {
    assert ([x] + a)[1..] == a && ([x] + b)[1..] == b;
  }

  /** A subsequence of b is a subsequence of b followed by x. */
  lemma {:induction false} SubsequenceExtend<T>(a: seq<T>, b: seq<T>, x: T)
    requires IsSubsequence(a, b)
    ensures IsSubsequence(a, b + [x])
    decreases |b|
  {
    if a != [] {
      assert (b + [x])[0] == b[0] && (b + [x])[1..] == b[1..] + [x];
      if a[0] == b[0] {
        SubsequenceExtend(a[1..], b[1..], x);
      } else {
        SubsequenceExtend(a, b[1..], x);
      }
    }
  }

  /** Appending a common last element keeps a subsequence. */
  lemma {:induction false} SubsequenceAppend<T>(a: seq<T>, b: seq<T>, x: T)
    requires IsSubsequence(a, b)
    ensures IsSubsequence(a + [x], b + [x])
    decreases |b|
  {
    if b == [] {
      assert a == [];
      assert [x][1..] == [];
    } else {
      assert (b + [x])[0] == b[0] && (b + [x])[1..] == b[1..] + [x];
      if a == [] {
        if x != b[0] {
          SubsequenceAppend(a, b[1..], x);
        } else {
          assert [x][1..] == [];
        }
      } else {
        assert (a + [x])[0] == a[0] && (a + [x])[1..] == a[1..] + [x];
        if a[0] == b[0] {
          SubsequenceAppend(a[1..], b[1..], x);
        } else {
          SubsequenceAppend(a, b[1..], x);
        }
      }
    }
  }
}
