/** The array-backed binary max-heap `BinaryHeap<T>`, ordered by a
    caller-supplied three-way comparison. */
module Heap {

  /** What a `Comparison<T>` must be for the heap to make sense: a total
      preorder. "x is not greater than y" is `cmp(x, y) <= 0`; it is
      transitive, and `cmp(x, y) > 0` exactly when `cmp(y, x) < 0`. */
  ghost predicate TotalPreorder<T(!new)>(cmp: (T, T) -> int) {
    && (forall x, y :: Flips(cmp, x, y))
    && (forall x, y, z :: Chains(cmp, x, y, z))
  }

  /** `x` is greater than `y` exactly when `y` is less than `x`. */
  ghost predicate Flips<T>(cmp: (T, T) -> int, x: T, y: T) {
    cmp(x, y) > 0 <==> cmp(y, x) < 0
  }

  /** "Not greater than" is transitive through `y`. */
  ghost predicate Chains<T>(cmp: (T, T) -> int, x: T, y: T, z: T) {
    cmp(x, y) <= 0 && cmp(y, z) <= 0 ==> cmp(x, z) <= 0
  }

  function Parent(i: nat): nat
    requires i > 0
  {
    (i - 1) / 2
  }

  /** Heap order on the first `n` elements: no element is greater than its parent. */
  ghost predicate HeapOrdered<T>(s: seq<T>, n: nat, cmp: (T, T) -> int)
    requires n <= |s|
  {
    forall i {:trigger s[i], Parent(i)} :: 0 < i < n ==> cmp(s[i], s[Parent(i)]) <= 0
  }

  /** Heap order while an element climbs from index `k` (HeapifyUp): every
      link holds except the one from `k` to its parent, and `k`'s children
      are not greater than `k`'s parent. */
  ghost predicate OrderedExceptUp<T>(s: seq<T>, n: nat, k: nat, cmp: (T, T) -> int)
    requires n <= |s|
  {
    && (forall i {:trigger s[i], Parent(i)} :: 0 < i < n && i != k ==> cmp(s[i], s[Parent(i)]) <= 0)
    && (k > 0 ==> forall i :: 0 < i < n && Parent(i) == k ==> cmp(s[i], s[Parent(k)]) <= 0)
  }

  /** Heap order while an element sinks from index `k` (HeapifyDown): every
      link holds except those from `k`'s children to `k`, and `k`'s children
      are not greater than `k`'s parent. */
  ghost predicate OrderedExceptDown<T>(s: seq<T>, n: nat, k: nat, cmp: (T, T) -> int)
    requires n <= |s|
  {
    && (forall i {:trigger s[i], Parent(i)} :: 0 < i < n && Parent(i) != k ==> cmp(s[i], s[Parent(i)]) <= 0)
    && (k > 0 ==> forall i :: 0 < i < n && Parent(i) == k ==> cmp(s[i], s[Parent(k)]) <= 0)
  }

  /** `s` with the elements at `i` and `j` exchanged. */
  function Swap<T>(s: seq<T>, i: nat, j: nat): (r: seq<T>)
    requires i < |s| && j < |s|
    ensures |r| == |s| && r[i] == s[j] && r[j] == s[i]
    ensures forall t :: 0 <= t < |s| && t != i && t != j ==> r[t] == s[t]
    ensures multiset(r) == multiset(s)
  {
    s[i := s[j]][j := s[i]]
  }

  /** Swapping inside a prefix keeps the prefix's elements. */
  lemma SwapPrefix<T>(s: seq<T>, n: nat, i: nat, j: nat)
    requires i < n && j < n && n <= |s|
    ensures multiset(Swap(s, i, j)[..n]) == multiset(s[..n])
  {
    assert Swap(s, i, j)[..n] == Swap(s[..n], i, j);
  }

  /** In a heap-ordered prefix, no element is greater than the root. */
  lemma {:induction false} RootIsMaximal<T(!new)>(s: seq<T>, n: nat, cmp: (T, T) -> int, i: nat)
    requires n <= |s| && TotalPreorder(cmp) && HeapOrdered(s, n, cmp)
    requires i < n
    ensures cmp(s[i], s[0]) <= 0
    decreases i
  {
    if i == 0 {
      assert Flips(cmp, s[0], s[0]);
    } else {
      RootIsMaximal(s, n, cmp, Parent(i));
      assert Chains(cmp, s[i], s[Parent(i)], s[0]);
    }
  }

  /** Every element of a heap-ordered prefix is not greater than the root. */
  lemma RootIsMaximalAll<T(!new)>(s: seq<T>, n: nat, cmp: (T, T) -> int)
    requires n <= |s| && TotalPreorder(cmp) && HeapOrdered(s, n, cmp)
    ensures forall x :: x in multiset(s[..n]) ==> cmp(x, s[0]) <= 0
  {
    forall x | x in multiset(s[..n]) ensures cmp(x, s[0]) <= 0 {
      var i :| 0 <= i < n && s[..n][i] == x;
      RootIsMaximal(s, n, cmp, i);
    }
  }

  /** One HeapifyUp swap moves the exception from `k` to its parent. */
  lemma SiftUpStep<T(!new)>(s: seq<T>, n: nat, k: nat, cmp: (T, T) -> int)
    requires n <= |s| && 0 < k < n && TotalPreorder(cmp)
    requires OrderedExceptUp(s, n, k, cmp)
    requires cmp(s[k], s[Parent(k)]) > 0
    ensures OrderedExceptUp(Swap(s, Parent(k), k), n, Parent(k), cmp)
  {
    var p := Parent(k);
    var r := Swap(s, p, k);
    forall i | 0 < i < n && i != p ensures cmp(r[i], r[Parent(i)]) <= 0 {
      assert Flips(cmp, s[k], s[p]);
      if i != k && Parent(i) == p {
        assert Chains(cmp, s[i], s[p], s[k]);
      }
    }
    if p > 0 {
      forall i | 0 < i < n && Parent(i) == p ensures cmp(r[i], r[Parent(p)]) <= 0 {
        if i != k {
          assert Chains(cmp, s[i], s[p], s[Parent(p)]);
        }
      }
    }
  }

  /** HeapifyUp stops when the climbing element is not greater than its parent. */
  lemma SiftUpDone<T>(s: seq<T>, n: nat, k: nat, cmp: (T, T) -> int)
    requires n <= |s| && k < n
    requires OrderedExceptUp(s, n, k, cmp)
    requires k > 0 ==> cmp(s[k], s[Parent(k)]) <= 0
    ensures HeapOrdered(s, n, cmp)
  {
  }

  /** One HeapifyDown swap, with `best` the greatest of `k` and its children,
      moves the exception from `k` to `best`. */
  lemma SiftDownStep<T(!new)>(s: seq<T>, n: nat, k: nat, best: nat, cmp: (T, T) -> int)
    requires n <= |s| && k < best < n && Parent(best) == k && TotalPreorder(cmp)
    requires OrderedExceptDown(s, n, k, cmp)
    requires cmp(s[best], s[k]) > 0
    requires forall c :: 0 < c < n && Parent(c) == k ==> cmp(s[c], s[best]) <= 0
    ensures OrderedExceptDown(Swap(s, k, best), n, best, cmp)
  {
    var r := Swap(s, k, best);
    assert Flips(cmp, s[best], s[k]);
    forall i | 0 < i < n && Parent(i) != best ensures cmp(r[i], r[Parent(i)]) <= 0 {
    }
  }

  /** The greatest of `k` and its children, chosen as HeapifyDown chooses it
      (left child first, then right child, each only when strictly greater). */
  lemma SiftDownChoice<T(!new)>(s: seq<T>, n: nat, k: nat, afterLeft: nat, best: nat, cmp: (T, T) -> int)
    requires n <= |s| && k < |s| && (k == 0 || k < n) && TotalPreorder(cmp)
    requires afterLeft == if 2 * k + 1 < n && cmp(s[2 * k + 1], s[k]) > 0 then 2 * k + 1 else k
    requires best == if 2 * k + 2 < n && cmp(s[2 * k + 2], s[afterLeft]) > 0 then 2 * k + 2 else afterLeft
    ensures best < |s|
    ensures forall c :: 0 < c < n && Parent(c) == k ==> cmp(s[c], s[best]) <= 0
    ensures best == k || (k < best < n && Parent(best) == k && cmp(s[best], s[k]) > 0)
  {
    var l, r := 2 * k + 1, 2 * k + 2;
    assert Flips(cmp, s[best], s[best]);
    assert Flips(cmp, s[afterLeft], s[afterLeft]);
    if best == r {
      assert Flips(cmp, s[r], s[afterLeft]);
      if l < n {
        assert Chains(cmp, s[l], s[afterLeft], s[r]);
      }
      if afterLeft == l {
        assert Flips(cmp, s[l], s[k]);
        assert Chains(cmp, s[r], s[k], s[l]);
      }
    }
    forall c | 0 < c < n && Parent(c) == k ensures c == l || c == r {
    }
  }

  /** One round of HeapifyDown: either the heap is in order, or swapping `k`
      with the chosen child moves the exception down to that child. */
  lemma SiftDownRound<T(!new)>(s: seq<T>, n: nat, k: nat, afterLeft: nat, best: nat, cmp: (T, T) -> int)
    requires n <= |s| && k < |s| && (k == 0 || k < n) && TotalPreorder(cmp)
    requires OrderedExceptDown(s, n, k, cmp)
    requires afterLeft == if 2 * k + 1 < n && cmp(s[2 * k + 1], s[k]) > 0 then 2 * k + 1 else k
    requires best == if 2 * k + 2 < n && cmp(s[2 * k + 2], s[afterLeft]) > 0 then 2 * k + 2 else afterLeft
    ensures best == k ==> HeapOrdered(s, n, cmp)
    ensures best != k ==> k < best < n && OrderedExceptDown(Swap(s, k, best), n, best, cmp)
  {
    SiftDownChoice(s, n, k, afterLeft, best, cmp);
    if best == k {
      SiftDownDone(s, n, k, cmp);
    } else {
      SiftDownStep(s, n, k, best, cmp);
    }
  }

  /** Insert's first step: writing an item just past a heap keeps the heap
      order of the live prefix. */
  lemma PlacedLast<T>(s: seq<T>, n: nat, item: T, cmp: (T, T) -> int)
    requires n < |s| && HeapOrdered(s, n, cmp)
    ensures HeapOrdered(s[n := item], n, cmp)
  {
  }

  /** Pop's first step: moving the last element of a heap to the root leaves
      the other elements and an exception at the root. */
  lemma RootReplaced<T>(s: seq<T>, n: nat, cmp: (T, T) -> int)
    requires 0 < n <= |s| && HeapOrdered(s, n, cmp)
    ensures OrderedExceptDown(s[0 := s[n - 1]], n - 1, 0, cmp)
    ensures multiset(s[0 := s[n - 1]][..n - 1]) == multiset(s[..n]) - multiset{s[0]}
  {
    var t := s[0 := s[n - 1]];
    if n > 1 {
      assert s[..n] == [s[0]] + s[1..n - 1] + [s[n - 1]];
      assert t[..n - 1] == [s[n - 1]] + s[1..n - 1];
    }
  }

  /** HeapifyDown stops when no child of `k` is greater than `k`. */
  lemma SiftDownDone<T>(s: seq<T>, n: nat, k: nat, cmp: (T, T) -> int)
    requires n <= |s|
    requires OrderedExceptDown(s, n, k, cmp)
    requires forall c :: 0 < c < n && Parent(c) == k ==> cmp(s[c], s[k]) <= 0
    ensures HeapOrdered(s, n, cmp)
  {
  }

  class BinaryHeap<T(0,!new)> {
    var mData: array<T>
    var mSize: nat
    const mComparison: (T, T) -> int
    ghost var Repr: set<object>

    ghost predicate Valid()
      reads this, Repr
    {
      && Repr == {this, mData}
      && mSize <= mData.Length
      && 4 <= mData.Length
      && TotalPreorder(mComparison)
      && HeapOrdered(mData[..], mSize, mComparison)
    }

    /** The multiset of live elements, `mData[0..mSize)`. */
    ghost function Elements(): multiset<T>
      reads this, Repr
      requires Valid()
    {
      multiset(mData[..mSize])
    }

    /** The heap starts empty with capacity 4. */
    constructor (comparison: (T, T) -> int)
      requires TotalPreorder(comparison)
      ensures Valid() && fresh(Repr)
      ensures Elements() == multiset{} && mData.Length == 4
      ensures mComparison == comparison
    {
      mData := new T[4];
      mSize := 0;
      mComparison := comparison;
      Repr := {this, mData};
    }

    function Size(): (n: nat)
      reads this, Repr
      requires Valid()
      ensures n == |Elements()| && n <= mData.Length
    {
      mSize
    }

    /** Adds an item: grows the array when full, places the item last and lets it climb. */
    method Insert(item: T)
      requires Valid()
      modifies Repr
      ensures Valid() && fresh(Repr - old(Repr))
      ensures Elements() == old(Elements()) + multiset{item}
      ensures Size() == old(Size()) + 1
      ensures old(mSize) == old(mData.Length) ==> mData.Length == 2 * old(mData.Length)
      ensures old(mSize) < old(mData.Length) ==> mData == old(mData)
    {
      ghost var e0 := multiset(mData[..mSize]);
      if mSize == mData.Length {
        Resize();
      }
      ghost var s := mData[..];
      assert multiset(s[..mSize]) == e0;
      PlacedLast(s, mSize, item, mComparison);
      mData[mSize] := item;
      assert mData[..] == s[mSize := item];
      HeapifyUp(mSize);
      mSize := mSize + 1;
      assert multiset(mData[..mSize]) == e0 + multiset{item};
    }

    /** Removes and returns the root; the last element moves to the root and sinks. */
    method Pop() returns (item: T)
      requires Valid() && Size() > 0
      modifies Repr
      ensures Valid() && Repr == old(Repr) && mData == old(mData)
      ensures item in old(Elements())
      ensures Elements() == old(Elements()) - multiset{item}
      ensures Size() == old(Size()) - 1
      ensures forall x :: x in old(Elements()) ==> mComparison(x, item) <= 0
    {
      RootIsMaximalAll(mData[..], mSize, mComparison);
      assert mData[..][..mSize] == mData[..mSize];
      ghost var s := mData[..];
      item := mData[0];
      mSize := mSize - 1;
      mData[0] := mData[mSize];
      assert mData[..] == s[0 := s[mSize]];
      RootReplaced(s, mSize + 1, mComparison);
      HeapifyDown();
    }

    /** Doubles the capacity, copying every element of the old array. */
    method Resize()
      requires Valid()
      modifies this
      ensures Valid() && fresh(mData) && Repr == {this, mData}
      ensures mData.Length == 2 * old(mData.Length)
      ensures mData[..old(mData.Length)] == old(mData[..])
      ensures mData[..mSize] == old(mData[..mSize])
      ensures mSize == old(mSize)
    {
      var resized := new T[mData.Length * 2];
      forall i | 0 <= i < mData.Length {
        resized[i] := mData[i];
      }
      assert resized[..mData.Length] == mData[..];
      assert resized[..mSize] == mData[..mSize];
      mData := resized;
      Repr := {this, mData};
    }

    /** Lets the element at `mSize` climb while it is greater than its parent. */
    method HeapifyUp(childIdx: nat)
      requires childIdx == mSize < mData.Length
      requires TotalPreorder(mComparison)
      requires HeapOrdered(mData[..], childIdx, mComparison)
      modifies mData
      ensures multiset(mData[..childIdx + 1]) == old(multiset(mData[..childIdx])) + multiset{old(mData[childIdx])}
      ensures HeapOrdered(mData[..], childIdx + 1, mComparison)
      ensures mData[childIdx + 1..] == old(mData[childIdx + 1..])
    {
      ghost var n := childIdx + 1;
      ghost var m0 := multiset(mData[..childIdx]) + multiset{mData[childIdx]};
      assert m0 == old(multiset(mData[..childIdx])) + multiset{old(mData[childIdx])};
      assert mData[..n] == mData[..childIdx] + [mData[childIdx]];
      var c: nat := childIdx;
      while c > 0
        invariant c < n
        invariant multiset(mData[..n]) == m0
        invariant OrderedExceptUp(mData[..], n, c, mComparison)
        invariant mData[n..] == old(mData[n..])
      {
        var p := (c - 1) / 2;
        if mComparison(mData[c], mData[p]) > 0 {
          SiftUpStep(mData[..], n, c, mComparison);
          ghost var before := mData[..];
          SwapPrefix(before, n, p, c);
          mData[p], mData[c] := mData[c], mData[p];
          assert mData[..] == Swap(before, p, c);
          c := p;
        } else {
          break;
        }
      }
      SiftUpDone(mData[..], n, c, mComparison);
    }

    /** Lets the root sink while some child is greater than it. */
    method HeapifyDown()
      requires mSize < mData.Length
      requires TotalPreorder(mComparison)
      requires OrderedExceptDown(mData[..], mSize, 0, mComparison)
      modifies mData
      ensures multiset(mData[..mSize]) == old(multiset(mData[..mSize]))
      ensures HeapOrdered(mData[..], mSize, mComparison)
      ensures mData[mSize..] == old(mData[mSize..])
    {
      ghost var m0 := multiset(mData[..mSize]);
      assert m0 == old(multiset(mData[..mSize]));
      var parentIdx := 0;
      while true
        invariant parentIdx == 0 || parentIdx < mSize
        invariant multiset(mData[..mSize]) == m0
        invariant OrderedExceptDown(mData[..], mSize, parentIdx, mComparison)
        invariant mData[mSize..] == old(mData[mSize..])
        decreases mSize - parentIdx
      {
        var leftChildIdx := 2 * parentIdx + 1;
        var rightChildIdx := leftChildIdx + 1;
        var smallestChildIdx := parentIdx;
        if leftChildIdx < mSize && mComparison(mData[leftChildIdx], mData[smallestChildIdx]) > 0 {
          smallestChildIdx := leftChildIdx;
        }
        ghost var afterLeft := smallestChildIdx;
        if rightChildIdx < mSize && mComparison(mData[rightChildIdx], mData[smallestChildIdx]) > 0 {
          smallestChildIdx := rightChildIdx;
        }
        SiftDownRound(mData[..], mSize, parentIdx, afterLeft, smallestChildIdx, mComparison);
        if smallestChildIdx == parentIdx {
          break;
        }
        ghost var before := mData[..];
        SwapPrefix(before, mSize, parentIdx, smallestChildIdx);
        mData[parentIdx], mData[smallestChildIdx] := mData[smallestChildIdx], mData[parentIdx];
        assert mData[..] == Swap(before, parentIdx, smallestChildIdx);
        parentIdx := smallestChildIdx;
      }
    }
  }
}
