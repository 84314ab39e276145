/**
  What the list operations compute, stated on the sequence of elements a list
  holds from head to tail. The list methods are proved against these
  functions; the lemmas here prove what the functions promise (sortedness,
  permutation, stability, the split and explode shapes).
 */
module SequenceModel {
  import opened Items

  // ---------------------------------------------------------------- insertOrdered

  /**
    `v` inserted immediately before the first element `e` with `v <= e`, or
    appended when there is none. The three branches are the three cases of
    insertOrdered: empty list, new head, somewhere after the head.
   */
  function OrderedInsert(s: seq<Item>, v: Item): (r: seq<Item>)
    ensures |r| == |s| + 1
    ensures multiset(r) == multiset(s) + multiset{v}
  {
    if s == [] then [v]
    else if Le(v, s[0]) then [v] + s
    else
      assert s == [s[0]] + s[1..];
      [s[0]] + OrderedInsert(s[1..], v)
  }

  /**
    Where `v` lands: at index `k`, the first position whose element is not
    below `v`; every element before it has a smaller key, so `v` precedes
    all elements equal to it.
   */
  lemma {:induction false} OrderedInsertAt(s: seq<Item>, v: Item, k: nat)
    requires k <= |s|
    requires forall j :: 0 <= j < k ==> !Le(v, s[j])
    requires k < |s| ==> Le(v, s[k])
    ensures OrderedInsert(s, v) == s[..k] + [v] + s[k..]
  {
    if k == 0 {
      assert s[..0] == [] && s[0..] == s;
    } else {
      var t := s[1..];
      forall j | 0 <= j < k - 1 ensures !Le(v, t[j]) {
        assert t[j] == s[j + 1];
      }
      OrderedInsertAt(t, v, k - 1);
      OrderedInsertAtStep(s, v, k);
    }
  }

  lemma OrderedInsertAtStep(s: seq<Item>, v: Item, k: nat)
    requires 0 < k <= |s| && !Le(v, s[0])
    requires OrderedInsert(s[1..], v) == s[1..][..k - 1] + [v] + s[1..][k - 1..]
    ensures OrderedInsert(s, v) == s[..k] + [v] + s[k..]
  {
    var t := s[1..];
    assert [s[0]] + t[..k - 1] == s[..k];
    assert t[k - 1..] == s[k..];
  }

  /** Inserting into a sorted sequence keeps it sorted. */
  lemma {:induction false} OrderedInsertSorted(s: seq<Item>, v: Item)
    requires Sorted(s)
    ensures Sorted(OrderedInsert(s, v))
  {
    if s != [] && !Le(v, s[0]) {
      var t := s[1..];
      assert Sorted(t);
      OrderedInsertSorted(t, v);
      var r := OrderedInsert(t, v);
      forall i | 0 <= i < |r| ensures Le(s[0], r[i]) {
        assert r[i] in multiset(r);
        assert r[i] in multiset(t) || r[i] == v;
      }
    }
  }

  // ---------------------------------------------------------------- merge

  /**
    The two-pointer merge of `a` (this list) and `b` (the other list):
    the head of `a` is taken when it is `<=` the head of `b`, so on equal
    keys the left operand's element comes first.
   */
  function Merged(a: seq<Item>, b: seq<Item>): (r: seq<Item>)
    ensures |r| == |a| + |b|
    ensures multiset(r) == multiset(a) + multiset(b)
    decreases |a| + |b|
  {
    if a == [] then b
    else if b == [] then a
    else if Le(a[0], b[0]) then
      assert a == [a[0]] + a[1..];
      [a[0]] + Merged(a[1..], b)
    else
      assert b == [b[0]] + b[1..];
      [b[0]] + Merged(a, b[1..])
  }

  /** `x` followed by a sorted `r` is sorted when `x` is `<=` all of `r`. */
  lemma PrependSorted(x: Item, r: seq<Item>, m: multiset<Item>)
    requires Sorted(r) && multiset(r) == m
    requires forall e :: e in m ==> Le(x, e)
    ensures Sorted([x] + r)
  {
    forall i | 0 <= i < |r| ensures Le(x, r[i]) {
      assert r[i] in multiset(r);
    }
  }

  /** Merging two sorted sequences gives a sorted sequence. */
  lemma {:induction false} MergedSorted(a: seq<Item>, b: seq<Item>)
    requires Sorted(a) && Sorted(b)
    ensures Sorted(Merged(a, b))
    decreases |a| + |b|
  {
    if a != [] && b != [] {
      if Le(a[0], b[0]) {
        MergedSorted(a[1..], b);
        forall e | e in multiset(a[1..]) + multiset(b) ensures Le(a[0], e) {
          if e in a[1..] {
            var i :| 0 <= i < |a[1..]| && a[1..][i] == e;
            assert a[i + 1] == e;
          } else {
            var i :| 0 <= i < |b| && b[i] == e;
            assert i == 0 || Le(b[0], b[i]);
          }
        }
        PrependSorted(a[0], Merged(a[1..], b), multiset(a[1..]) + multiset(b));
      } else {
        MergedSorted(a, b[1..]);
        forall e | e in multiset(a) + multiset(b[1..]) ensures Le(b[0], e) {
          if e in a {
            var i :| 0 <= i < |a| && a[i] == e;
            assert i == 0 || Le(a[0], a[i]);
          } else {
            var i :| 0 <= i < |b[1..]| && b[1..][i] == e;
            assert b[i + 1] == e;
          }
        }
        PrependSorted(b[0], Merged(a, b[1..]), multiset(a) + multiset(b[1..]));
      }
    }
  }

  /**
    Stability of merge: among the elements with any one key, the merge keeps
    all of the left operand's, in their order, ahead of all of the right
    operand's.
   */
  lemma {:induction false} MergedStable(a: seq<Item>, b: seq<Item>, k: int)
    requires Sorted(a) && Sorted(b)
    ensures WithKey(Merged(a, b), k) == WithKey(a, k) + WithKey(b, k)
    decreases |a| + |b|
  {
    if a == [] {
      assert WithKey(a, k) == [];
    } else if b == [] {
      assert WithKey(b, k) == [];
    } else if Le(a[0], b[0]) {
      MergedStable(a[1..], b, k);
      MergedStableLeftStep(a, b, k);
    } else {
      MergedStable(a, b[1..], k);
      if b[0].key == k {
        SortedWithoutKey(a, k);
      }
      MergedStableRightStep(a, b, k);
    }
  }

  /** The step of MergedStable where the left head is taken. */
  lemma MergedStableLeftStep(a: seq<Item>, b: seq<Item>, k: int)
    requires a != [] && b != [] && Le(a[0], b[0])
    requires WithKey(Merged(a[1..], b), k) == WithKey(a[1..], k) + WithKey(b, k)
    ensures WithKey(Merged(a, b), k) == WithKey(a, k) + WithKey(b, k)
  {
    var m := Merged(a[1..], b);
    calc {
      WithKey(Merged(a, b), k);
      WithKey([a[0]] + m, k);
      { WithKeyConcat([a[0]], m, k); }
      WithKey([a[0]], k) + (WithKey(a[1..], k) + WithKey(b, k));
      { assert (WithKey([a[0]], k) + WithKey(a[1..], k)) + WithKey(b, k)
            == WithKey([a[0]], k) + (WithKey(a[1..], k) + WithKey(b, k)); }
      (WithKey([a[0]], k) + WithKey(a[1..], k)) + WithKey(b, k);
      { WithKeyConcat([a[0]], a[1..], k); assert [a[0]] + a[1..] == a; }
      WithKey(a, k) + WithKey(b, k);
    }
  }

  /**
    The step of MergedStable where the right head is taken; when that head
    has key `k`, the left operand has nothing with key `k`.
   */
  lemma MergedStableRightStep(a: seq<Item>, b: seq<Item>, k: int)
    requires a != [] && b != [] && !Le(a[0], b[0])
    requires b[0].key == k ==> WithKey(a, k) == []
    requires WithKey(Merged(a, b[1..]), k) == WithKey(a, k) + WithKey(b[1..], k)
    ensures WithKey(Merged(a, b), k) == WithKey(a, k) + WithKey(b, k)
  {
    var m := Merged(a, b[1..]);
    var wa, wb0, wb1 := WithKey(a, k), WithKey([b[0]], k), WithKey(b[1..], k);
    assert WithKey(Merged(a, b), k) == wb0 + (wa + wb1) by {
      assert Merged(a, b) == [b[0]] + m;
      WithKeyConcat([b[0]], m, k);
    }
    assert WithKey(b, k) == wb0 + wb1 by {
      WithKeyConcat([b[0]], b[1..], k);
      assert [b[0]] + b[1..] == b;
    }
    if b[0].key == k {
      assert wa + wb1 == wb1 && wa + (wb0 + wb1) == wb0 + wb1;
    } else {
      assert wb0 == [];
      assert wb0 + (wa + wb1) == wa + wb1 && wb0 + wb1 == wb1;
    }
  }

  /** A sorted sequence whose head's key is above `k` has no element with key `k`. */
  lemma SortedWithoutKey(a: seq<Item>, k: int)
    requires Sorted(a) && a != [] && k < a[0].key
    ensures WithKey(a, k) == []
  {
    forall i | 0 <= i < |a| ensures a[i].key != k {
      assert i == 0 || Le(a[0], a[i]);
    }
    WithKeyAbsent(a, k);
  }

  /** The merge takes the left head when it is `<=` the right head or the right side is spent. */
  lemma MergedTakeLeft(a: seq<Item>, b: seq<Item>, i: nat, j: nat)
    requires i < |a| && j <= |b|
    requires j == |b| || Le(a[i], b[j])
    ensures Merged(a[i..], b[j..]) == [a[i]] + Merged(a[i + 1..], b[j..])
  {
    assert a[i..][0] == a[i] && a[i..][1..] == a[i + 1..];
    if j == |b| {
      assert b[j..] == [];
    } else {
      assert b[j..][0] == b[j];
    }
  }

  /** Otherwise the merge takes the right head. */
  lemma MergedTakeRight(a: seq<Item>, b: seq<Item>, i: nat, j: nat)
    requires i <= |a| && j < |b|
    requires i == |a| || !Le(a[i], b[j])
    ensures Merged(a[i..], b[j..]) == [b[j]] + Merged(a[i..], b[j + 1..])
  {
    assert b[j..][0] == b[j] && b[j..][1..] == b[j + 1..];
    if i == |a| {
      assert a[i..] == [];
    } else {
      assert a[i..][0] == a[i];
    }
  }

  /**
    The merge of what is left once the cursors stand at `a[i]` and `b[j]`,
    written on indices the way the two-pointer loop walks the lists.
   */
  function MergeFrom(a: seq<Item>, b: seq<Item>, i: nat, j: nat): (r: seq<Item>)
    requires i <= |a| && j <= |b|
    decreases |a| - i + |b| - j
  {
    if i == |a| then b[j..]
    else if j == |b| then a[i..]
    else if Le(a[i], b[j]) then [a[i]] + MergeFrom(a, b, i + 1, j)
    else [b[j]] + MergeFrom(a, b, i, j + 1)
  }

  /** The walk from any pair of cursors merges the two unwalked suffixes. */
  lemma {:induction false} MergeFromIsMerged(a: seq<Item>, b: seq<Item>, i: nat, j: nat)
    requires i <= |a| && j <= |b|
    ensures MergeFrom(a, b, i, j) == Merged(a[i..], b[j..])
    decreases |a| - i + |b| - j
  {
    if i == |a| {
      assert a[i..] == [];
    } else if j == |b| {
      assert b[j..] == [];
    } else if Le(a[i], b[j]) {
      MergeFromIsMerged(a, b, i + 1, j);
      MergedTakeLeft(a, b, i, j);
    } else {
      MergeFromIsMerged(a, b, i, j + 1);
      MergedTakeRight(a, b, i, j);
    }
  }

  // ---------------------------------------------------------------- splitHalves

  /**
    The two halves of splitHalves: the right one gets the last `|s| / 2`
    elements, the left one the rest, and together they are `s`. For fewer
    than two elements this is the whole of `s` and an empty right half.
   */
  function Halves(s: seq<Item>): (h: (seq<Item>, seq<Item>))
    ensures h.0 + h.1 == s
    ensures |h.1| == |s| / 2
  {
    (s[..|s| - |s| / 2], s[|s| - |s| / 2..])
  }

  // ---------------------------------------------------------------- explode

  /** explode: one singleton per element, in order. */
  function Singletons(s: seq<Item>): (r: seq<seq<Item>>)
    ensures |r| == |s|
    ensures forall i :: 0 <= i < |r| ==> r[i] == [s[i]]
  {
    if s == [] then [] else [[s[0]]] + Singletons(s[1..])
  }

  /** The elements of a list of lists, front list first. */
  function Flatten(q: seq<seq<Item>>): (r: seq<Item>) {
    if q == [] then [] else q[0] + Flatten(q[1..])
  }

  lemma {:induction false} FlattenAppend(q: seq<seq<Item>>, t: seq<Item>)
    ensures Flatten(q + [t]) == Flatten(q) + t
  {
    if q == [] {
      assert q + [t] == [t];
    } else {
      assert (q + [t])[1..] == q[1..] + [t];
      FlattenAppend(q[1..], t);
    }
  }

  /** Concatenating the singletons of explode gives back the list. */
  lemma {:induction false} FlattenSingletons(s: seq<Item>)
    ensures Flatten(Singletons(s)) == s
  {
    if s != [] {
      FlattenSingletons(s[1..]);
      assert Singletons(s)[1..] == Singletons(s[1..]);
    }
  }

  // ---------------------------------------------------------------- mergeSortRecursive

  /** Top-down merge sort: split into halves, sort each, merge. */
  function TopDownSort(s: seq<Item>): (r: seq<Item>)
    ensures multiset(r) == multiset(s)
    ensures |s| < 2 ==> r == s
    decreases |s|
  {
    if |s| < 2 then s
    else
      var h := Halves(s);
      assert multiset(s) == multiset(h.0) + multiset(h.1);
      Merged(TopDownSort(h.0), TopDownSort(h.1))
  }

  /** One level of the recursion: sort both halves, merge the results. */
  lemma TopDownSortStep(s: seq<Item>)
    requires |s| >= 2
    ensures TopDownSort(s) == Merged(TopDownSort(Halves(s).0), TopDownSort(Halves(s).1))
    ensures |Halves(s).0| < |s| && |Halves(s).1| < |s|
  {
  }

  lemma {:induction false} TopDownSortSorted(s: seq<Item>)
    ensures Sorted(TopDownSort(s))
    decreases |s|
  {
    if |s| >= 2 {
      var h := Halves(s);
      TopDownSortSorted(h.0);
      TopDownSortSorted(h.1);
      MergedSorted(TopDownSort(h.0), TopDownSort(h.1));
    }
  }

  /** The recursive sort is stable: equal keys keep their original order. */
  lemma {:induction false} TopDownSortStable(s: seq<Item>, k: int)
    ensures WithKey(TopDownSort(s), k) == WithKey(s, k)
    decreases |s|
  {
    if |s| >= 2 {
      var h := Halves(s);
      TopDownSortStable(h.0, k);
      TopDownSortStable(h.1, k);
      TopDownSortSorted(h.0);
      TopDownSortSorted(h.1);
      MergedStable(TopDownSort(h.0), TopDownSort(h.1), k);
      WithKeyConcat(h.0, h.1, k);
    }
  }

  // ---------------------------------------------------------------- mergeSortIterative

  /**
    The work-queue loop: take the two front runs, merge them, put the
    result at the back, until one run is left.
   */
  function QueueSort(q: seq<seq<Item>>): (r: seq<Item>)
    requires |q| >= 1
    ensures multiset(r) == multiset(Flatten(q))
    decreases |q|
  {
    if |q| == 1 then
      assert Flatten(q) == q[0] + Flatten([]);
      q[0]
    else
      QueueStep(q);
      QueueSort(q[2..] + [Merged(q[0], q[1])])
  }

  predicate AllSorted(q: seq<seq<Item>>) {
    forall i :: 0 <= i < |q| ==> Sorted(q[i])
  }

  /**
    A queue of sorted runs ends as one sorted run holding exactly the
    queue's elements: each step keeps every run sorted and the multiset of
    the concatenated queue unchanged, and shortens the queue by one.
   */
  lemma {:induction false} QueueSortCorrect(q: seq<seq<Item>>)
    requires |q| >= 1 && AllSorted(q)
    ensures Sorted(QueueSort(q))
    ensures multiset(QueueSort(q)) == multiset(Flatten(q))
    decreases |q|
  {
    if |q| == 1 {
      assert Flatten(q) == q[0] + Flatten([]);
    } else {
      var m := Merged(q[0], q[1]);
      var q' := q[2..] + [m];
      MergedSorted(q[0], q[1]);
      assert AllSorted(q');
      QueueSortCorrect(q');
      QueueStep(q);
    }
  }

  /**
    One round of the work-queue loop shortens the queue by one and keeps
    the multiset of all the elements the queue holds.
   */
  lemma QueueStep(q: seq<seq<Item>>)
    requires |q| >= 2
    ensures |q[2..] + [Merged(q[0], q[1])]| == |q| - 1
    ensures multiset(Flatten(q[2..] + [Merged(q[0], q[1])])) == multiset(Flatten(q))
  {
    FlattenAppend(q[2..], Merged(q[0], q[1]));
    assert Flatten(q) == q[0] + (q[1] + Flatten(q[2..])) by {
      assert q[1..][1..] == q[2..];
    }
  }

  /** Bottom-up merge sort: a queue of singletons, merged pairwise. */
  function BottomUpSort(s: seq<Item>): (r: seq<Item>)
    ensures |s| < 2 ==> r == s
  {
    if |s| < 2 then s else QueueSort(Singletons(s))
  }

  lemma BottomUpSortCorrect(s: seq<Item>)
    ensures Sorted(BottomUpSort(s))
    ensures multiset(BottomUpSort(s)) == multiset(s)
  {
    if |s| >= 2 {
      QueueSortCorrect(Singletons(s));
      FlattenSingletons(s);
    }
  }

  /**
    The two sort drivers order the keys identically; they can differ only
    in the order of elements with equal keys.
   */
  lemma DriversAgreeOnKeys(s: seq<Item>)
    ensures Keys(TopDownSort(s)) == Keys(BottomUpSort(s))
  {
    TopDownSortSorted(s);
    BottomUpSortCorrect(s);
    SortedPermutationsAgreeOnKeys(TopDownSort(s), BottomUpSort(s));
  }

  /**
    The iterative sort is not stable, unlike the recursive one
    (TopDownSortStable): with three equal keys the third element's singleton
    waits at the front of the queue while the first two are merged, and is
    then merged as the left operand, so it comes first.
   */
  lemma BottomUpSortNotStable()
    ensures BottomUpSort([Item(5, 0), Item(5, 1), Item(5, 2)]) == [Item(5, 2), Item(5, 0), Item(5, 1)]
  {
    BottomUpSortOfThree(Item(5, 0), Item(5, 1), Item(5, 2));
  }

  lemma BottomUpSortOfThree(a: Item, b: Item, c: Item)
    requires a.key == b.key == c.key
    ensures BottomUpSort([a, b, c]) == [c, a, b]
  {
    assert Singletons([a, b, c]) == [[a], [b], [c]];
    QueueSortOfThree(a, b, c);
  }

  /** A queue of three runs: the first two are merged and queued behind the third. */
  lemma QueueSortOfThreeRuns(x: seq<Item>, y: seq<Item>, z: seq<Item>)
    ensures QueueSort([x, y, z]) == QueueSort([z, Merged(x, y)])
  {
    assert [x, y, z][2..] + [Merged(x, y)] == [z, Merged(x, y)];
  }

  /** A queue of two runs ends as their merge. */
  lemma QueueSortOfTwoRuns(x: seq<Item>, y: seq<Item>)
    ensures QueueSort([x, y]) == Merged(x, y)
  {
    assert [x, y][2..] + [Merged(x, y)] == [Merged(x, y)];
  }

  lemma QueueSortOfThree(a: Item, b: Item, c: Item)
    requires a.key == b.key == c.key
    ensures QueueSort([[a], [b], [c]]) == [c, a, b]
  {
    QueueSortOfThreeRuns([a], [b], [c]);
    MergedOfOne(a, [b]);
    QueueSortOfRunAndPair(c, Merged([a], [b]), a, b);
  }

  /** The last round for three equal keys: `[c]` merged with `[a, b]`, left first. */
  lemma QueueSortOfRunAndPair(c: Item, m: seq<Item>, a: Item, b: Item)
    requires m == [a] + [b] && Le(c, a)
    ensures QueueSort([[c], m]) == [c, a, b]
  {
    QueueSortOfTwoRuns([c], m);
    MergedOfOne(c, m);
    assert [c] + m == [c, a, b];
  }

  lemma MergedOfOne(x: Item, b: seq<Item>)
    requires b != [] && Le(x, b[0])
    ensures Merged([x], b) == [x] + b
  {
    assert [x][1..] == [];
  }

}
