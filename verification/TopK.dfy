/** topk.go: quickselect with a second partition for inputs with many duplicates. */
module TopK {

  /** The orders for which the selection is meaningful. */
  ghost predicate StrictWeakOrder<T(!new)>(less: (T, T) -> bool) {
    && (forall x :: !less(x, x))
    && (forall x, y, z :: less(x, y) && less(y, z) ==> less(x, z))
    && (forall x, y, z :: less(x, z) ==> less(x, y) || less(y, z))
  }

  /** t is s with the positions lo..hi permuted and everything else left alone. */
  ghost predicate Rearranged<T(!new)>(s: seq<T>, t: seq<T>, lo: nat, hi: nat)
    requires lo <= hi <= |s|
  {
    && |s| == |t|
    && multiset(s[lo..hi]) == multiset(t[lo..hi])
    && forall i :: 0 <= i < |s| && !(lo <= i < hi) ==> s[i] == t[i]
  }

  /** Every element of the range satisfies p. */
  ghost predicate All<T(!new)>(s: seq<T>, lo: nat, hi: nat, p: T -> bool)
    requires hi <= |s|
  {
    forall i :: lo <= i < hi ==> p(s[i])
  }

  /** The first k of the range are no greater than the others. */
  ghost predicate TopFirst<T(!new)>(s: seq<T>, lo: nat, hi: nat, k: nat, less: (T, T) -> bool)
    requires hi <= |s|
  {
    forall i, j :: lo <= i < k <= j < hi ==> !less(s[j], s[i])
  }

  lemma RearrangedKeepsAll<T(!new)>(s: seq<T>, t: seq<T>, lo: nat, hi: nat, p: T -> bool)
    requires lo <= hi <= |s| && Rearranged(s, t, lo, hi) && All(s, lo, hi, p)
    ensures All(t, lo, hi, p)
  {
    forall i | lo <= i < hi ensures p(t[i]) {
      assert t[i] == t[lo..hi][i - lo];
      assert t[i] in multiset(s[lo..hi]);
      var j :| 0 <= j < hi - lo && s[lo..hi][j] == t[i];
      assert s[lo + j] == t[i];
    }
  }

  lemma SwapRearranges<T(!new)>(s: seq<T>, t: seq<T>, lo: nat, hi: nat, i: nat, j: nat)
    requires lo <= i < hi <= |s| && lo <= j < hi && t == s[i := s[j]][j := s[i]]
    ensures Rearranged(s, t, lo, hi)
  {
    var u, v := s[lo..hi], t[lo..hi];
    assert v == u[i - lo := u[j - lo]][j - lo := u[i - lo]];
    SwapMultiset(u, i - lo, j - lo);
  }

  lemma SwapMultiset<T(!new)>(u: seq<T>, i: nat, j: nat)
    requires i < |u| && j < |u|
    ensures multiset(u[i := u[j]][j := u[i]]) == multiset(u)
  {
    if i == j { assert u[i := u[j]][j := u[i]] == u; }
  }

  lemma Compose<T(!new)>(s: seq<T>, t: seq<T>, u: seq<T>, lo: nat, hi: nat)
    requires lo <= hi <= |s| && Rearranged(s, t, lo, hi) && Rearranged(t, u, lo, hi)
    ensures Rearranged(s, u, lo, hi)
  {}

  lemma Widen<T(!new)>(s: seq<T>, t: seq<T>, lo: nat, hi: nat, lo': nat, hi': nat)
    requires lo' <= lo <= hi <= hi' <= |s| && Rearranged(s, t, lo, hi)
    ensures Rearranged(s, t, lo', hi')
  {
    assert s[lo'..hi'] == s[lo'..lo] + s[lo..hi] + s[hi..hi'];
    assert t[lo'..hi'] == t[lo'..lo] + t[lo..hi] + t[hi..hi'];
    assert s[lo'..lo] == t[lo'..lo] && s[hi..hi'] == t[hi..hi'];
  }

  method Swap<T(!new)>(a: array<T>, i: nat, j: nat, ghost lo: nat, ghost hi: nat)
    requires lo <= i < hi <= a.Length && lo <= j < hi
    modifies a
    ensures a[i] == old(a[j]) && a[j] == old(a[i])
    ensures forall x :: 0 <= x < a.Length && x != i && x != j ==> a[x] == old(a[x])
    ensures Rearranged(old(a[..]), a[..], lo, hi)
  {
    ghost var s := a[..];
    a[i], a[j] := a[j], a[i];
    assert a[..] == s[i := s[j]][j := s[i]];
    SwapRearranges(s, a[..], lo, hi, i, j);
  }

  /** Moves what is above the first element of the range to its back; mid is where it starts. */
  method Partition<T(!new)>(a: array<T>, less: (T, T) -> bool, start: nat, end: nat) returns (mid: nat)
    requires StrictWeakOrder(less) && start < end <= a.Length
    modifies a
    ensures start < mid <= end && a[start] == old(a[start]) && Rearranged(old(a[..]), a[..], start, end)
    ensures forall i :: start <= i < mid ==> !less(a[start], a[i])
    ensures forall i :: mid <= i < end ==> less(a[start], a[i])
  {
    ghost var s := a[..];
    var l, r := start + 1, end;
    while l < r
      invariant start < l <= r <= end && a[start] == s[start] && Rearranged(s, a[..], start, end)
      invariant forall i :: start <= i < l ==> !less(a[start], a[i])
      invariant forall i :: r <= i < end ==> less(a[start], a[i])
      decreases r - l
    {
      if !less(a[start], a[l]) {
        l := l + 1;
      } else if less(a[start], a[r - 1]) {
        r := r - 1;
      } else {
        ghost var t := a[..];
        Swap(a, l, r - 1, start, end);
        Compose(s, t, a[..], start, end);
        l := l + 1;
        r := r - 1;
      }
    }
    mid := l;
  }

  /** Moves what equals the pivot, the last element of the range, to the back of the range. */
  method SplitEqual<T(!new)>(a: array<T>, less: (T, T) -> bool, start: nat, pivot: nat) returns (l: nat)
    requires StrictWeakOrder(less) && start <= pivot < a.Length
    modifies a
    ensures start <= l <= pivot && a[pivot] == old(a[pivot]) && Rearranged(old(a[..]), a[..], start, pivot)
    ensures forall i :: start <= i < l ==> less(a[i], a[pivot])
    ensures forall i :: l <= i <= pivot ==> !less(a[i], a[pivot])
  {
    ghost var s := a[..];
    l := start;
    var r: int := pivot - 1;
    while l <= r
      invariant start <= l <= r + 1 <= pivot && a[pivot] == s[pivot] && Rearranged(s, a[..], start, pivot)
      invariant forall i :: start <= i < l ==> less(a[i], a[pivot])
      invariant forall i :: r < i <= pivot ==> !less(a[i], a[pivot])
      decreases r - l
    {
      if less(a[l], a[pivot]) {
        l := l + 1;
      } else {
        ghost var t := a[..];
        Swap(a, l, r, start, pivot);
        Compose(s, t, a[..], start, pivot);
        r := r - 1;
      }
    }
  }

  lemma Above<T(!new)>(less: (T, T) -> bool, pv: T, x: T, y: T)
    requires StrictWeakOrder(less) && !less(pv, x) && less(pv, y)
    ensures !less(y, x)
  {}

  lemma Below<T(!new)>(less: (T, T) -> bool, pv: T, x: T, y: T)
    requires StrictWeakOrder(less) && less(x, pv) && !less(y, pv)
    ensures !less(y, x)
  {}

  lemma Equal<T(!new)>(less: (T, T) -> bool, pv: T, x: T, y: T)
    requires StrictWeakOrder(less) && !less(pv, x) && !less(y, pv)
    ensures !less(y, x)
  {}

  /** Selection of one side settles the whole range: nothing left of mid is above the pivot value. */
  lemma SelectedRight<T(!new)>(s: seq<T>, less: (T, T) -> bool, start: nat, mid: nat, end: nat, k: nat, pv: T)
    requires StrictWeakOrder(less) && start <= mid <= k <= end <= |s|
    requires All(s, start, mid, x => !less(pv, x)) && All(s, mid, end, x => less(pv, x))
    requires TopFirst(s, mid, end, k, less)
    ensures TopFirst(s, start, end, k, less)
  {
    forall i, j | start <= i < k <= j < end ensures !less(s[j], s[i]) {
      if i < mid { Above(less, pv, s[i], s[j]); }
    }
  }

  lemma SelectedLeft<T(!new)>(s: seq<T>, less: (T, T) -> bool, start: nat, mid: nat, end: nat, k: nat, pv: T)
    requires StrictWeakOrder(less) && start <= k <= mid <= end <= |s|
    requires All(s, start, mid, x => !less(pv, x)) && All(s, mid, end, x => less(pv, x))
    requires TopFirst(s, start, mid, k, less)
    ensures TopFirst(s, start, end, k, less)
  {
    forall i, j | start <= i < k <= j < end ensures !less(s[j], s[i]) {
      if j >= mid { Above(less, pv, s[i], s[j]); }
    }
  }

  /** When the k-th place falls among the elements equal to the pivot, nothing is left to do. */
  lemma AmongEqual<T(!new)>(s: seq<T>, less: (T, T) -> bool, start: nat, l: nat, mid: nat, k: nat, pv: T)
    requires StrictWeakOrder(less) && start <= l <= k <= mid <= |s|
    requires All(s, start, mid, x => !less(pv, x)) && All(s, l, mid, x => !less(x, pv))
    ensures TopFirst(s, start, mid, k, less)
  {
    forall i, j | start <= i < k <= j < mid ensures !less(s[j], s[i]) {
      Equal(less, pv, s[i], s[j]);
    }
  }

  /** The smaller elements are settled; those from l on are equal to the pivot. */
  lemma BelowEqual<T(!new)>(s: seq<T>, less: (T, T) -> bool, start: nat, l: nat, mid: nat, k: nat, pv: T)
    requires StrictWeakOrder(less) && start <= k <= l <= mid <= |s|
    requires All(s, start, l, x => less(x, pv)) && All(s, l, mid, x => !less(x, pv))
    requires TopFirst(s, start, l, k, less)
    ensures TopFirst(s, start, mid, k, less)
  {
    forall i, j | start <= i < k <= j < mid ensures !less(s[j], s[i]) {
      if j >= l { Below(less, pv, s[i], s[j]); }
    }
  }

  /** moveTopKToFront panics when k is outside of the range. The pivot is any element of it. */
  method MoveRange<T(!new)>(a: array<T>, less: (T, T) -> bool, start: nat, end: nat, k: nat)
    requires StrictWeakOrder(less) && start <= k <= end <= a.Length
    modifies a
    ensures Rearranged(old(a[..]), a[..], start, end)
    ensures TopFirst(a[..], start, end, k, less)
    decreases end - start
  {
    if k == start || k == end { return; }
    ghost var s := a[..];
    var choice: nat :| start <= choice < end;
    Swap(a, start, choice, start, end);
    ghost var s1 := a[..];
    var mid := Partition(a, less, start, end);
    ghost var s2, pv := a[..], a[start];
    Compose(s, s1, s2, start, end);
    if k >= mid {
      MoveRange(a, less, mid, end, k);
      AfterRight(s2, a[..], less, start, mid, end, k, pv);
    } else if end - mid > (end - start) / 4 {
      MoveRange(a, less, start, mid, k);
      AfterLeft(s2, a[..], less, start, mid, end, k, pv);
    } else {
      MoveAmongSmall(a, less, start, mid, k);
      AfterLeft(s2, a[..], less, start, mid, end, k, pv);
    }
    Compose(s, s2, a[..], start, end);
  }

  /** The range start..mid holds nothing above its first element; k lies inside. */
  method MoveAmongSmall<T(!new)>(a: array<T>, less: (T, T) -> bool, start: nat, mid: nat, k: nat)
    requires StrictWeakOrder(less) && start < k < mid <= a.Length
    requires forall i :: start <= i < mid ==> !less(a[start], a[i])
    modifies a
    ensures Rearranged(old(a[..]), a[..], start, mid)
    ensures TopFirst(a[..], start, mid, k, less)
    decreases mid - start, 0
  {
    ghost var s, pv := a[..], a[start];
    var l := GatherEqual(a, less, start, mid);
    ghost var t := a[..];
    if k <= l {
      MoveRange(a, less, start, l, k);
      AfterBelow(s, t, a[..], less, start, l, mid, k, pv);
    } else {
      RearrangedKeepsAll(s, t, start, mid, x => !less(pv, x));
      AmongEqual(t, less, start, l, mid, k, pv);
    }
  }

  /** The pivot goes to the back and what equals it follows. */
  method GatherEqual<T(!new)>(a: array<T>, less: (T, T) -> bool, start: nat, mid: nat) returns (l: nat)
    requires StrictWeakOrder(less) && start < mid <= a.Length
    modifies a
    ensures start <= l < mid && Rearranged(old(a[..]), a[..], start, mid)
    ensures All(a[..], start, l, x => less(x, old(a[start]))) && All(a[..], l, mid, x => !less(x, old(a[start])))
  {
    ghost var s := a[..];
    Swap(a, start, mid - 1, start, mid);
    ghost var t := a[..];
    l := SplitEqual(a, less, start, mid - 1);
    Widen(t, a[..], start, mid - 1, start, mid);
    Compose(s, t, a[..], start, mid);
  }

  lemma AfterBelow<T(!new)>(s: seq<T>, t: seq<T>, u: seq<T>, less: (T, T) -> bool,
                            start: nat, l: nat, mid: nat, k: nat, pv: T)
    requires StrictWeakOrder(less) && start <= k <= l <= mid <= |s|
    requires Rearranged(s, t, start, mid) && Rearranged(t, u, start, l)
    requires All(t, start, l, x => less(x, pv)) && All(t, l, mid, x => !less(x, pv))
    requires TopFirst(u, start, l, k, less)
    ensures Rearranged(s, u, start, mid) && TopFirst(u, start, mid, k, less)
  {
    RearrangedKeepsAll(t, u, start, l, x => less(x, pv));
    BelowEqual(u, less, start, l, mid, k, pv);
    Widen(t, u, start, l, start, mid);
    Compose(s, t, u, start, mid);
  }

  lemma AfterRight<T(!new)>(s: seq<T>, t: seq<T>, less: (T, T) -> bool,
                            start: nat, mid: nat, end: nat, k: nat, pv: T)
    requires StrictWeakOrder(less) && start <= mid <= k <= end <= |s|
    requires All(s, start, mid, x => !less(pv, x)) && All(s, mid, end, x => less(pv, x))
    requires Rearranged(s, t, mid, end) && TopFirst(t, mid, end, k, less)
    ensures Rearranged(s, t, start, end) && TopFirst(t, start, end, k, less)
  {
    RearrangedKeepsAll(s, t, mid, end, x => less(pv, x));
    Widen(s, t, mid, end, start, end);
    SelectedRight(t, less, start, mid, end, k, pv);
  }

  lemma AfterLeft<T(!new)>(s: seq<T>, t: seq<T>, less: (T, T) -> bool,
                           start: nat, mid: nat, end: nat, k: nat, pv: T)
    requires StrictWeakOrder(less) && start <= k <= mid <= end <= |s|
    requires All(s, start, mid, x => !less(pv, x)) && All(s, mid, end, x => less(pv, x))
    requires Rearranged(s, t, start, mid) && TopFirst(t, start, mid, k, less)
    ensures Rearranged(s, t, start, end) && TopFirst(t, start, end, k, less)
  {
    RearrangedKeepsAll(s, t, start, mid, x => !less(pv, x));
    Widen(s, t, start, mid, start, end);
    SelectedLeft(t, less, start, mid, end, k, pv);
  }

  /** The k least elements come first; the call does nothing when there are no more than k. */
  method MoveTopKToFront<T(!new)>(a: array<T>, less: (T, T) -> bool, k: nat)
    requires StrictWeakOrder(less)
    modifies a
    ensures Rearranged(old(a[..]), a[..], 0, a.Length)
    ensures TopFirst(a[..], 0, a.Length, k, less)
  {
    if a.Length <= k { return; }
    MoveRange(a, less, 0, a.Length, k);
  }
}
