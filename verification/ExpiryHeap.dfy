// The order of a binary min-heap kept in a sequence, and what the steps of
// the heap algorithms do to it.
module ExpiryHeap {
  function Parent(i: nat): nat
    requires i > 0
  {
    (i - 1) / 2
  }

  // The first `n` elements are in heap order.
  predicate Ordered(es: seq<int>, n: nat) {
    n <= |es| && forall k {:trigger es[k]} | 0 < k < n :: es[Parent(k)] <= es[k]
  }

  // The same but for element `i`, which may be smaller than its parent or
  // larger than its children; the children still fit below the parent.
  predicate OrderedBut(es: seq<int>, n: nat, i: nat) {
    && n <= |es|
    && (forall k {:trigger es[k]} | 0 < k < n && k != i && Parent(k) != i :: es[Parent(k)] <= es[k])
    && (i > 0 ==> forall k {:trigger es[k]} | 0 < k < n && Parent(k) == i :: es[Parent(i)] <= es[k])
  }

  // Only its parent may be in disorder with element `i` ...
  predicate OrderedAbove(es: seq<int>, n: nat, i: nat) {
    OrderedBut(es, n, i) && forall k {:trigger es[k]} | 0 < k < n && Parent(k) == i :: es[i] <= es[k]
  }

  // ... or only its children.
  predicate OrderedBelow(es: seq<int>, n: nat, i: nat) {
    OrderedBut(es, n, i) && (0 < i < n ==> es[Parent(i)] <= es[i])
  }

  function Swapped<T>(s: seq<T>, i: nat, j: nat): (r: seq<T>)
    requires i < |s| && j < |s|
    ensures |r| == |s| && forall k | 0 <= k < |s| :: r[k] == if k == i then s[j] else if k == j then s[i] else s[k]
  {
    s[i := s[j]][j := s[i]]
  }

  lemma UpStep(es: seq<int>, n: nat, j: nat)
    requires 0 < j < n && OrderedAbove(es, n, j) && es[j] < es[Parent(j)]
    ensures OrderedAbove(Swapped(es, Parent(j), j), n, Parent(j))
  {
    var p := Parent(j);
    var r := Swapped(es, p, j);
    forall k | 0 < k < n && Parent(k) == p ensures r[p] <= r[k] {
      assert k != j ==> es[Parent(k)] <= es[k];
    }
    if p > 0 {
      assert es[Parent(p)] <= es[p];
      forall k | 0 < k < n && Parent(k) == p ensures r[Parent(p)] <= r[k] {
        assert k != j ==> es[Parent(k)] <= es[k];
      }
    }
    forall k | 0 < k < n && k != p && Parent(k) != p ensures r[Parent(k)] <= r[k] {
      if Parent(k) == j { assert es[Parent(j)] <= es[k]; } else { assert es[Parent(k)] <= es[k]; }
    }
  }

  lemma UpDone(es: seq<int>, n: nat, j: nat)
    requires j < n && OrderedAbove(es, n, j) && (j == 0 || es[Parent(j)] <= es[j])
    ensures Ordered(es, n)
  {
  }

  // `j` is the smaller child of `i`.
  predicate SmallerChild(es: seq<int>, n: nat, i: nat, j: nat) {
    && j < n <= |es| && j > 0 && Parent(j) == i
    && forall k {:trigger es[k]} | 0 < k < n && Parent(k) == i :: es[j] <= es[k]
  }

  lemma PickChild(es: seq<int>, n: nat, i: nat, j: nat)
    requires n <= |es| && 2 * i + 1 < n
    requires j == if 2 * i + 2 < n && es[2 * i + 2] < es[2 * i + 1] then 2 * i + 2 else 2 * i + 1
    ensures SmallerChild(es, n, i, j)
  {
    forall k | 0 < k < n && Parent(k) == i ensures es[j] <= es[k] {
      assert k == 2 * i + 1 || k == 2 * i + 2;
    }
  }

  lemma DownStep(es: seq<int>, n: nat, i: nat, j: nat)
    requires OrderedBut(es, n, i) && i < n && SmallerChild(es, n, i, j) && es[j] < es[i]
    ensures OrderedBelow(Swapped(es, i, j), n, j) && OrderedBut(Swapped(es, i, j), n, j)
  {
    var r := Swapped(es, i, j);
    forall k | 0 < k < n && k != j && Parent(k) != j ensures r[Parent(k)] <= r[k] {
      if k == i { assert es[Parent(i)] <= es[j]; }
      else if Parent(k) == i { assert es[j] <= es[k]; }
      else { assert es[Parent(k)] <= es[k]; }
    }
    forall k | 0 < k < n && Parent(k) == j ensures r[Parent(j)] <= r[k] {
      assert es[Parent(k)] <= es[k];
    }
  }

  // Element `i` is no larger than its children.
  lemma DownDone(es: seq<int>, n: nat, i: nat)
    requires OrderedBut(es, n, i) && i < n
    requires 2 * i + 1 < n ==> es[i] <= es[2 * i + 1]
    requires 2 * i + 2 < n ==> es[i] <= es[2 * i + 2]
    ensures OrderedAbove(es, n, i) && (OrderedBelow(es, n, i) ==> Ordered(es, n))
  {
    forall k | 0 < k < n && Parent(k) == i ensures es[i] <= es[k] {
      assert k == 2 * i + 1 || k == 2 * i + 2;
    }
  }

  // The root is the least of all.
  lemma {:induction false} RootLeast(es: seq<int>, n: nat, k: nat)
    requires Ordered(es, n) && k < n
    ensures es[0] <= es[k]
  {
    if k > 0 {
      RootLeast(es, n, Parent(k));
      assert es[Parent(k)] <= es[k];
    }
  }

  // One element set to another value.
  lemma Reset(es: seq<int>, i: nat, x: int)
    requires Ordered(es, |es|) && i < |es|
    ensures OrderedBut(es[i := x], |es|, i)
  {
    var r := es[i := x];
    forall k | 0 < k < |es| && k != i && Parent(k) != i ensures r[Parent(k)] <= r[k] { assert es[Parent(k)] <= es[k]; }
    if i > 0 {
      forall k | 0 < k < |es| && Parent(k) == i ensures r[Parent(i)] <= r[k] {
        assert es[Parent(k)] <= es[k] && es[Parent(i)] <= es[i];
      }
    }
  }

  lemma Appended(es: seq<int>, x: int)
    requires Ordered(es, |es|)
    ensures OrderedAbove(es + [x], |es| + 1, |es|)
  {
    var r := es + [x];
    forall k | 0 < k < |r| && k != |es| && Parent(k) != |es| ensures r[Parent(k)] <= r[k] { assert es[Parent(k)] <= es[k]; }
  }

  lemma NothingOrdered(es: seq<int>)
    ensures Ordered(es, 0)
  {
  }

  lemma FirstOrdered(es: seq<int>, n: nat)
    requires Ordered(es, n)
    ensures Ordered(es[..n], n)
  {
    forall k | 0 < k < n ensures es[..n][Parent(k)] <= es[..n][k] { assert es[Parent(k)] <= es[k]; }
  }

  // The last element put in place of the root.
  lemma LastToRoot(es: seq<int>)
    requires Ordered(es, |es|) && es != []
    ensures OrderedBut(Swapped(es, 0, |es| - 1), |es| - 1, 0)
  {
    var n := |es| - 1;
    var r := Swapped(es, 0, n);
    forall k | 0 < k < n && Parent(k) != 0 ensures r[Parent(k)] <= r[k] { assert es[Parent(k)] <= es[k]; }
  }
}
