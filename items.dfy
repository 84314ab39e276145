/**
  The elements a list holds and the order that its sorting operations use.

  The list is a template over any element type with a `<=`; the model fixes
  that type to `Item`, whose `<=` compares the `key` only. The `tag` rides
  along, so that the relative order in which a sort or a merge leaves two
  elements with equal keys is observable.
 */
module Items {

  datatype Item = Item(key: int, tag: int)

  /** The element type's `<=`. */
  predicate Le(a: Item, b: Item) {
    a.key <= b.key
  }

  /** Ascending under `Le`: every element is `Le` every later one. */
  predicate Sorted(s: seq<Item>) {
    forall i, j :: 0 <= i < j < |s| ==> Le(s[i], s[j])
  }

  /** Every adjacent pair is in order: what a walk from head to tail checks. */
  predicate AdjacentInOrder(s: seq<Item>) {
    forall i :: 0 < i < |s| ==> Le(s[i - 1], s[i])
  }

  /** Checking adjacent pairs is the same as checking every pair. */
  lemma {:induction false} AdjacentSorted(s: seq<Item>)
    ensures AdjacentInOrder(s) <==> Sorted(s)
  {
    if AdjacentInOrder(s) && |s| > 0 {
      var t := s[..|s| - 1];
      assert AdjacentInOrder(t) by {
        forall i | 0 < i < |t| ensures Le(t[i - 1], t[i]) {
          assert t[i - 1] == s[i - 1] && t[i] == s[i];
        }
      }
      AdjacentSorted(t);
      forall i, j | 0 <= i < j < |s| ensures Le(s[i], s[j]) {
        if j < |s| - 1 {
          assert t[i] == s[i] && t[j] == s[j];
        } else if i < j - 1 {
          assert t[i] == s[i] && t[j - 1] == s[j - 1];
        }
      }
    }
  }

  /** The elements of `s` whose key is `k`, in their order in `s`. */
  function WithKey(s: seq<Item>, k: int): (r: seq<Item>)
    ensures |r| <= |s|
    ensures forall i :: 0 <= i < |r| ==> r[i].key == k && r[i] in s
  {
    if s == [] then []
    else (if s[0].key == k then [s[0]] else []) + WithKey(s[1..], k)
  }

  lemma {:induction false} WithKeyConcat(a: seq<Item>, b: seq<Item>, k: int)
    ensures WithKey(a + b, k) == WithKey(a, k) + WithKey(b, k)
  {
    if a == [] {
      assert a + b == b;
    } else {
      assert (a + b)[0] == a[0];
      assert (a + b)[1..] == a[1..] + b;
      WithKeyConcat(a[1..], b, k);
    }
  }

  /** A sequence without key `k` has nothing to contribute to `WithKey(_, k)`. */
  lemma {:induction false} WithKeyAbsent(s: seq<Item>, k: int)
    requires forall i :: 0 <= i < |s| ==> s[i].key != k
    ensures WithKey(s, k) == []
  {
    if s != [] {
      WithKeyAbsent(s[1..], k);
    }
  }

  /** The keys of `s`, in order. */
  function Keys(s: seq<Item>): (r: seq<int>) {
    seq(|s|, i requires 0 <= i < |s| => s[i].key)
  }

  predicate Ascending(x: seq<int>) {
    forall i, j :: 0 <= i < j < |x| ==> x[i] <= x[j]
  }

  /** Removing the element at `j` removes one occurrence of it from the multiset. */
  lemma RemoveAt<T>(y: seq<T>, j: int)
    requires 0 <= j < |y|
    ensures multiset(y[..j] + y[j + 1..]) == multiset(y) - multiset{y[j]}
  {
    assert y == y[..j] + [y[j]] + y[j + 1..];
  }

  /** Dropping the head removes one occurrence of it from the multiset. */
  lemma DropHead<T>(x: seq<T>)
    requires x != []
    ensures multiset(x[1..]) == multiset(x) - multiset{x[0]}
  {
    assert x == [x[0]] + x[1..];
  }

  /** Dropping equal heads from two permutations leaves permutations. */
  lemma TailsPermutation<T>(x: seq<T>, y: seq<T>)
    requires x != [] && y != [] && x[0] == y[0]
    requires multiset(x) == multiset(y)
    ensures multiset(x[1..]) == multiset(y[1..])
  {
    DropHead(x);
    DropHead(y);
  }

  /** One step of KeysOfPermutation: `x[0]` sits at some index `j` of `y`. */
  lemma KeysOfPermutationStep(x: seq<Item>, y: seq<Item>, j: int)
    requires x != [] && 0 <= j < |y| && y[j] == x[0]
    requires multiset(Keys(x[1..])) == multiset(Keys(y[..j] + y[j + 1..]))
    ensures multiset(Keys(x)) == multiset(Keys(y))
  {
    assert Keys(x) == [x[0].key] + Keys(x[1..]);
    assert Keys(y) == Keys(y[..j]) + [y[j].key] + Keys(y[j + 1..]);
    assert Keys(y[..j] + y[j + 1..]) == Keys(y[..j]) + Keys(y[j + 1..]);
  }

  /** Equal multisets of elements give equal multisets of keys. */
  lemma {:induction false} KeysOfPermutation(x: seq<Item>, y: seq<Item>)
    requires multiset(x) == multiset(y)
    ensures multiset(Keys(x)) == multiset(Keys(y))
  {
    if x == [] {
      assert |y| == |multiset(y)| == 0;
    } else {
      var j := PermutationIndexOfHead(x, y);
      KeysOfPermutation(x[1..], y[..j] + y[j + 1..]);
      KeysOfPermutationStep(x, y, j);
    }
  }

  /**
    Where the head of `x` sits in its permutation `y`; removing it there
    leaves a permutation of the tail of `x`.
   */
  lemma PermutationIndexOfHead<T>(x: seq<T>, y: seq<T>) returns (j: int)
    requires x != [] && multiset(x) == multiset(y)
    ensures 0 <= j < |y| && y[j] == x[0]
    ensures multiset(x[1..]) == multiset(y[..j] + y[j + 1..])
  {
    assert x[0] in multiset(y) by {
      assert x[0] in multiset(x);
    }
    j :| 0 <= j < |y| && y[j] == x[0];
    DropHead(x);
    RemoveAt(y, j);
  }

  /** The head of an ascending sequence is at most each of its elements. */
  lemma AscendingHead(x: seq<int>, v: int)
    requires Ascending(x) && v in multiset(x)
    ensures x != [] && x[0] <= v
  {
    var i :| 0 <= i < |x| && x[i] == v;
    assert i == 0 || x[0] <= x[i];
  }

  lemma AscendingTail(x: seq<int>)
    requires Ascending(x) && x != []
    ensures Ascending(x[1..])
  {
    forall a, b | 0 <= a < b < |x[1..]| ensures x[1..][a] <= x[1..][b] {
      assert x[1..][a] == x[a + 1] && x[1..][b] == x[b + 1];
    }
  }

  /** Two ascending integer sequences with the same multiset are equal. */
  lemma {:induction false} AscendingPermutationUnique(x: seq<int>, y: seq<int>)
    requires Ascending(x) && Ascending(y)
    requires multiset(x) == multiset(y)
    ensures x == y
  {
    if x == [] {
      assert |y| == |multiset(y)| == 0;
    } else {
      assert x[0] in multiset(x);
      AscendingHead(y, x[0]);
      assert y[0] in multiset(y);
      AscendingHead(x, y[0]);
      TailsPermutation(x, y);
      AscendingTail(x);
      AscendingTail(y);
      AscendingPermutationUnique(x[1..], y[1..]);
      assert x == [x[0]] + x[1..] && y == [y[0]] + y[1..];
    }
  }

  /**
    Any two sorted permutations of the same elements have the same key
    sequence: they can differ only in how they order equal keys.
   */
  lemma SortedPermutationsAgreeOnKeys(x: seq<Item>, y: seq<Item>)
    requires Sorted(x) && Sorted(y)
    requires multiset(x) == multiset(y)
    ensures Keys(x) == Keys(y)
  {
    KeysOfPermutation(x, y);
    AscendingPermutationUnique(Keys(x), Keys(y));
  }
}
