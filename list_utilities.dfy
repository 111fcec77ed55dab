/// The window buffer `WindowArray<T>` of ListUtilities.cs: a fixed-capacity
/// array written round-robin by `Add`, whose indexer presents the elements
/// oldest first once the buffer has wrapped.
///
/// The class keeps the backing array and the Add counter of the source. Its
/// abstract value is `Contents()`, the sequence `this[0], ..., this[size-1]`
/// as the indexer reads it, and `Items()`, the first `Length()` of them (the
/// ones written by Add). The pure functions below describe the logical effect
/// of an Add (`AddStep`) and of a series of Adds (`AfterAdds`) on that view;
/// the lemmas about them carry the ordering guarantees of the data structure.
module ListUtilities {
  import opened ModArith

  /// Mathf.Min on counts.
  function MinNat(a: nat, b: nat): nat {
    if a < b then a else b
  }

  /// C#'s `%` on int: the remainder of division truncated toward zero, which
  /// takes the sign of the dividend (unlike Dafny's Euclidean `%`).
  function CsRem(a: int, n: int): (r: int)
    requires n > 0
    ensures -n < r < n
    ensures a >= 0 ==> r >= 0
    ensures a <= 0 ==> r <= 0
  {
    if a >= 0 then a % n else -((-a) % n)
  }

  /// The C# remainder differs from its dividend by a multiple of the divisor.
  lemma CsRemCongruent(a: int, n: int)
    requires n > 0
    ensures (a - CsRem(a, n)) % n == 0
  {
    if a >= 0 {
      assert a == (a / n) * n + a % n;
      ModAddMultiple(0, a / n, n);
    } else {
      var b := -a;
      assert b == (b / n) * n + b % n;
      assert a - CsRem(a, n) == 0 + (-(b / n)) * n;
      ModAddMultiple(0, -(b / n), n);
    }
  }

  /// How far the indexer rotates the backing array: not at all before the
  /// first wrap, by the Add count afterwards.
  function Offset(windowIndex: nat, size: nat): nat {
    if windowIndex < size then 0 else windowIndex
  }

  /// The backing-array slot that the indexer uses for logical index `i`
  /// after `windowIndex` Adds, written as the source writes it.
  function Slot(windowIndex: nat, size: nat, i: int): (s: nat)
    requires size > 0
    ensures s < size
  {
    var ii := CsRem(i, size);
    if windowIndex < size then (ii + size) % size else (windowIndex + ii + size) % size
  }

  /// The source's `(i % size + size) % size` is the Euclidean remainder, so
  /// the slot is the logical index rotated by the offset, modulo the size.
  lemma SlotIsEuclidean(windowIndex: nat, size: nat, i: int)
    requires size > 0
    ensures Slot(windowIndex, size, i) == (Offset(windowIndex, size) + i) % size
  {
    var c := Offset(windowIndex, size);
    var ii := CsRem(i, size);
    CsRemCongruent(i, size);
    var q := (i - ii) / size;
    assert i - ii == q * size + (i - ii) % size;
    assert (c + ii + size) - (c + i) == 0 + (1 - q) * size;
    ModAddMultiple(0, 1 - q, size);
    ModCongruent(c + ii + size, c + i, size);
  }

  /// Every index reaches the same slot as its remainder modulo the size.
  lemma SlotOfRemainder(windowIndex: nat, size: nat, i: int)
    requires size > 0
    ensures Slot(windowIndex, size, i) == Slot(windowIndex, size, i % size)
  {
    var c, q, m := Offset(windowIndex, size), i / size, i % size;
    DivModSplit(i, size);
    assert c + i == (c + m) + q * size;
    ModAddMultiple(c + m, q, size);
    SlotIsEuclidean(windowIndex, size, i);
    SlotIsEuclidean(windowIndex, size, m);
  }

  /// Distinct logical indices in [0, size) reach distinct slots.
  lemma SlotInjective(windowIndex: nat, size: nat, j1: int, j2: int)
    requires size > 0 && 0 <= j1 < size && 0 <= j2 < size
    ensures Slot(windowIndex, size, j1) == Slot(windowIndex, size, j2) ==> j1 == j2
  {
    SlotIsEuclidean(windowIndex, size, j1);
    SlotIsEuclidean(windowIndex, size, j2);
    if Slot(windowIndex, size, j1) == Slot(windowIndex, size, j2) {
      ModInjective(Offset(windowIndex, size), j1, j2, size);
    }
  }

  /// Up to and including the first wrap, logical index j is slot j.
  lemma SlotBeforeWrap(windowIndex: nat, size: nat, j: int)
    requires size > 0 && windowIndex <= size && 0 <= j < size
    ensures Slot(windowIndex, size, j) == j
  {
    SlotIsEuclidean(windowIndex, size, j);
    ModOfSmall(j, size);
    if windowIndex == size {
      ModAddMultiple(j, 1, size);
    }
  }

  /// The indexer's view of a backing array: `this[0], ..., this[size-1]`.
  function View<T>(a: seq<T>, windowIndex: nat): (v: seq<T>)
    requires |a| > 0
    ensures |v| == |a|
  {
    seq(|a|, j requires 0 <= j < |a| => a[Slot(windowIndex, |a|, j)])
  }

  /// The logical effect of one Add on the view: before the buffer is full
  /// the item fills the next free index; on a full buffer the window shifts
  /// by one, dropping the oldest item, and the item becomes the newest.
  function AddStep<T>(v: seq<T>, windowIndex: nat, x: T): (r: seq<T>)
    requires |v| > 0
    ensures |r| == |v|
    ensures windowIndex < |v| ==>
      r[windowIndex] == x && forall j :: 0 <= j < |v| && j != windowIndex ==> r[j] == v[j]
    ensures windowIndex >= |v| ==>
      r[|v| - 1] == x && forall j :: 0 <= j < |v| - 1 ==> r[j] == v[j + 1]
  {
    if windowIndex < |v| then v[windowIndex := x] else v[1..] + [x]
  }

  /// The getter reads the view at the index taken modulo the size.
  lemma ReadMatchesView<T>(a: seq<T>, windowIndex: nat, i: int)
    requires |a| > 0
    ensures a[Slot(windowIndex, |a|, i)] == View(a, windowIndex)[i % |a|]
  {
    SlotOfRemainder(windowIndex, |a|, i);
  }

  /// The setter changes the view at the index taken modulo the size, and
  /// nowhere else.
  lemma WriteMatchesView<T>(a: seq<T>, windowIndex: nat, i: int, x: T)
    requires |a| > 0
    ensures View(a[Slot(windowIndex, |a|, i) := x], windowIndex) == View(a, windowIndex)[i % |a| := x]
  {
    var n := |a|;
    var s := Slot(windowIndex, n, i);
    SlotOfRemainder(windowIndex, n, i);
    var written, expected := View(a[s := x], windowIndex), View(a, windowIndex)[i % n := x];
    forall j | 0 <= j < n
      ensures written[j] == expected[j]
    {
      SlotInjective(windowIndex, n, j, i % n);
    }
  }

  /// Add's write into slot `windowIndex % size`, followed by the increment,
  /// has the logical effect AddStep.
  lemma AddMatchesView<T>(a: seq<T>, windowIndex: nat, x: T)
    requires |a| > 0
    ensures View(a[windowIndex % |a| := x], windowIndex + 1) == AddStep(View(a, windowIndex), windowIndex, x)
  {
    var n := |a|;
    var w := windowIndex;
    var a' := a[w % n := x];
    var v := View(a, w);
    if w < n {
      ModOfSmall(w, n);
      forall j | 0 <= j < n
        ensures View(a', w + 1)[j] == AddStep(v, w, x)[j]
      {
        SlotBeforeWrap(w + 1, n, j);
        SlotBeforeWrap(w, n, j);
      }
    } else {
      SlotIsEuclidean(w, n, 0);
      forall j | 0 <= j < n
        ensures View(a', w + 1)[j] == AddStep(v, w, x)[j]
      {
        SlotIsEuclidean(w + 1, n, j);
        if j < n - 1 {
          SlotIsEuclidean(w, n, j + 1);
          SlotInjective(w, n, j + 1, 0);
        } else {
          ModAddMultiple(w, 1, n);
        }
      }
    }
  }

  /// The live items: the first min(windowIndex, size) entries of the view.
  function Live<T>(v: seq<T>, windowIndex: nat): (s: seq<T>)
    ensures |s| == MinNat(windowIndex, |v|)
  {
    v[..MinNat(windowIndex, |v|)]
  }

  /// The last n elements of s (all of s if it has no more than n).
  function LastN<T>(s: seq<T>, n: nat): (r: seq<T>)
    ensures |r| == MinNat(|s|, n)
    ensures r == s[|s| - |r|..]
  {
    if |s| <= n then s else s[|s| - n..]
  }

  lemma LastNOfAppend<T>(s: seq<T>, x: T, n: nat)
    requires n > 0
    ensures LastN(LastN(s, n) + [x], n) == LastN(s + [x], n)
  {
    if |s| > n {
      assert (s + [x])[|s| + 1 - n..] == (s[|s| - n..] + [x])[1..];
    }
  }

  /// After an Add the live items are the old ones followed by the new item,
  /// keeping only the newest `size` of them.
  lemma LiveAfterAdd<T>(v: seq<T>, windowIndex: nat, x: T)
    requires |v| > 0
    ensures Live(AddStep(v, windowIndex, x), windowIndex + 1) == LastN(Live(v, windowIndex) + [x], |v|)
  {
    if windowIndex < |v| {
      assert AddStep(v, windowIndex, x)[..windowIndex + 1] == v[..windowIndex] + [x];
    } else {
      assert v[..|v|] == v;
    }
  }

  /// The view after Adding `adds` in order to a buffer whose view is `v`
  /// and whose Add count is `windowIndex`.
  function AfterAdds<T>(v: seq<T>, windowIndex: nat, adds: seq<T>): (r: seq<T>)
    requires |v| > 0
    ensures |r| == |v|
    decreases |adds|
  {
    if adds == [] then v
    else AddStep(AfterAdds(v, windowIndex, adds[..|adds| - 1]), windowIndex + |adds| - 1, adds[|adds| - 1])
  }

  /// From any state, after a series of Adds the live items are the newest
  /// `size` of: the old live items followed by everything added.
  lemma {:induction false} LiveAfterAdds<T>(v: seq<T>, windowIndex: nat, adds: seq<T>)
    requires |v| > 0
    ensures Live(AfterAdds(v, windowIndex, adds), windowIndex + |adds|) == LastN(Live(v, windowIndex) + adds, |v|)
    decreases |adds|
  {
    if adds == [] {
      assert Live(v, windowIndex) + adds == Live(v, windowIndex);
    } else {
      var n, live := |v|, Live(v, windowIndex);
      var pre, x := adds[..|adds| - 1], adds[|adds| - 1];
      var before := AfterAdds(v, windowIndex, pre);
      assert AfterAdds(v, windowIndex, adds) == AddStep(before, windowIndex + |pre|, x);
      calc == {
        Live(AfterAdds(v, windowIndex, adds), windowIndex + |adds|);
        Live(AddStep(before, windowIndex + |pre|, x), windowIndex + |pre| + 1);
        { LiveAfterAdd(before, windowIndex + |pre|, x); }
        LastN(Live(before, windowIndex + |pre|) + [x], n);
        { LiveAfterAdds(v, windowIndex, pre); }
        LastN(LastN(live + pre, n) + [x], n);
        { LastNOfAppend(live + pre, x, n); }
        LastN(live + pre + [x], n);
        { assert live + pre + [x] == live + adds; }
        LastN(live + adds, n);
      }
    }
  }

  /// Before a fresh buffer wraps, the items added occupy the first indices
  /// in order and the remaining slots still hold their initial contents.
  lemma {:induction false} FreshPrefix<T>(init: seq<T>, adds: seq<T>)
    requires 0 < |init| && |adds| <= |init|
    ensures AfterAdds(init, 0, adds) == adds + init[|adds|..]
    decreases |adds|
  {
    if adds != [] {
      var pre, x := adds[..|adds| - 1], adds[|adds| - 1];
      FreshPrefix(init, pre);
      assert adds == pre + [x];
      assert (pre + init[|pre|..])[|pre| := x] == adds + init[|adds|..];
    }
  }

  /// The order guarantees of a buffer built by Adds alone (ListUtilities.cs
  /// lines 6-12): before wrapping, index i holds the i-th item added and
  /// unwritten indices their initial contents; after n >= size Adds, index
  /// i holds item n - size + i, so index 0 is the oldest item retained and
  /// index size - 1 the newest.
  lemma FreshWindowOrder<T>(init: seq<T>, adds: seq<T>, i: int)
    requires 0 <= i < |init|
    ensures i < |adds| < |init| ==> AfterAdds(init, 0, adds)[i] == adds[i]
    ensures |adds| <= i ==> AfterAdds(init, 0, adds)[i] == init[i]
    ensures |adds| >= |init| ==> AfterAdds(init, 0, adds)[i] == adds[|adds| - |init| + i]
  {
    if |adds| <= |init| {
      FreshPrefix(init, adds);
    }
    if |adds| >= |init| {
      FreshWrapped(init, adds);
    }
  }

  /// Once a fresh buffer has wrapped, it holds the newest `|init|` items.
  lemma FreshWrapped<T>(init: seq<T>, adds: seq<T>)
    requires 0 < |init| <= |adds|
    ensures AfterAdds(init, 0, adds) == adds[|adds| - |init|..]
  {
    LiveAfterAdds(init, 0, adds);
    WrappedContents(AfterAdds(init, 0, adds), init, adds);
  }

  lemma WrappedContents<T>(r: seq<T>, init: seq<T>, adds: seq<T>)
    requires |r| == |init| <= |adds|
    requires Live(r, |adds|) == LastN(Live(init, 0) + adds, |init|)
    ensures r == adds[|adds| - |init|..]
  {
    assert Live(r, |adds|) == r;
    assert Live(init, 0) + adds == adds;
  }

  /// What GetLast reads after a series of Adds to a fresh buffer: the newest
  /// item once `size` items have been added, the initial contents of the
  /// last slot before that.
  lemma GetLastAfterAdds<T>(init: seq<T>, adds: seq<T>)
    requires |init| > 0
    ensures |adds| >= |init| ==> AfterAdds(init, 0, adds)[|init| - 1] == adds[|adds| - 1]
    ensures |adds| < |init| ==> AfterAdds(init, 0, adds)[|init| - 1] == init[|init| - 1]
  {
    FreshWindowOrder(init, adds, |init| - 1);
  }

  function Repeat<T>(x: T, k: nat): (r: seq<T>)
    ensures |r| == k && forall i :: 0 <= i < k ==> r[i] == x
  {
    seq(k, _ => x)
  }

  lemma RepeatAppend<T>(start: seq<T>, x: T, i: nat)
    ensures start + Repeat(x, i) + [x] == start + Repeat(x, i + 1)
  {
  }

  /// One more Add of the same item during Fill.
  lemma FillStep<T>(start: seq<T>, x: T, i: nat, n: nat)
    requires n > 0
    ensures LastN(LastN(start + Repeat(x, i), n) + [x], n) == LastN(start + Repeat(x, i + 1), n)
  {
    LastNOfAppend(start + Repeat(x, i), x, n);
    RepeatAppend(start, x, i);
  }

  /// Adding n copies of x leaves only copies of x among the newest n items.
  lemma FillLeavesOnlyItem<T>(start: seq<T>, x: T, n: nat)
    ensures LastN(start + Repeat(x, n), n) == Repeat(x, n)
  {
    assert (start + Repeat(x, n))[|start|..] == Repeat(x, n);
  }

  class WindowArray<T(0)> {
    const arr: array<T>
    const size: nat
    var windowIndex: nat
    /// Every item passed to Add, in order.
    ghost var Added: seq<T>

    ghost predicate Valid()
      reads this
    {
      arr.Length == size && size > 0 && |Added| == windowIndex
    }

    /// `this[0], ..., this[size-1]` as the indexer reads them.
    ghost function Contents(): (v: seq<T>)
      reads this, arr
      requires Valid()
      ensures |v| == size
    {
      View(arr[..], windowIndex)
    }

    /// `this[0], ..., this[Length-1]`: the items that Add has written.
    ghost function Items(): (s: seq<T>)
      reads this, arr
      requires Valid()
      ensures |s| == Length()
    {
      Live(Contents(), windowIndex)
    }

    constructor (size: nat)
      requires size > 0
      ensures Valid() && fresh(arr)
      ensures this.size == size && windowIndex == 0 && Added == [] && Items() == []
    {
      this.size := size;
      arr := new T[size];
      windowIndex := 0;
      Added := [];
    }

    /// The constructor from an array, also used by the implicit conversion
    /// operator: the buffer adopts (aliases) the caller's array.
    constructor FromArray(a: array<T>)
      requires a.Length > 0
      ensures Valid() && arr == a && size == a.Length
      ensures windowIndex == 0 && Added == [] && Contents() == a[..] && Items() == []
    {
      arr := a;
      size := a.Length;
      windowIndex := 0;
      Added := [];
      new;
      forall j | 0 <= j < size
        ensures Contents()[j] == a[j]
      {
        SlotBeforeWrap(0, size, j);
      }
    }

    /// The number of live items: the Add count, capped at the capacity.
    function Length(): (n: nat)
      reads this
      requires Valid()
      ensures n == MinNat(|Added|, size) && n <= size
      ensures |Added| >= size ==> n == size
    {
      MinNat(windowIndex, size)
    }

    function MaxSize(): (n: nat)
      reads this, arr
      requires Valid()
      ensures n > 0 && n == |Contents()| && n == arr.Length
    {
      size
    }

    method Add(item: T)
      requires Valid()
      modifies this, arr
      ensures Valid()
      ensures windowIndex == old(windowIndex) + 1 && Added == old(Added) + [item]
      ensures Contents() == AddStep(old(Contents()), old(windowIndex), item)
      ensures Items() == LastN(old(Items()) + [item], size)
    {
      arr[windowIndex % size] := item;
      windowIndex := windowIndex + 1;
      Added := Added + [item];
      AddMatchesView(old(arr[..]), old(windowIndex), item);
      LiveAfterAdd(old(Contents()), old(windowIndex), item);
    }

    /// Gets the item most recently added: the indexer at `size - 1`, which is
    /// the newest item once the buffer has wrapped.
    method GetLast() returns (x: T)
      requires Valid()
      ensures x == Contents()[size - 1]
      ensures windowIndex >= size ==> x == Items()[|Items()| - 1]
    {
      x := Get(size - 1);
      ModOfSmall(size - 1, size);
    }

    method ToList() returns (output: seq<T>)
      requires Valid()
      ensures output == Contents()
    {
      output := [];
      for i := 0 to size
        invariant output == Contents()[..i]
      {
        var x := Get(i);
        ModOfSmall(i, size);
        output := output + [x];
      }
    }

    /// The indexer's getter.
    method Get(i: int) returns (x: T)
      requires Valid()
      ensures x == Contents()[i % size]
      ensures 0 <= i < Length() ==> x == Items()[i]
    {
      var ii := CsRem(i, size);
      if windowIndex < size {
        x := arr[(ii + size) % size];
      } else {
        x := arr[(windowIndex + ii + size) % size];
      }
      ReadMatchesView(arr[..], windowIndex, i);
      if 0 <= i < size {
        ModOfSmall(i, size);
      }
    }

    /// The indexer's setter: it shares the getter's index-to-slot mapping.
    method Set(i: int, value: T)
      requires Valid()
      modifies arr
      ensures Contents() == old(Contents())[i % size := value]
    {
      var ii := CsRem(i, size);
      if windowIndex < size {
        arr[(ii + size) % size] := value;
      } else {
        arr[(windowIndex + ii + size) % size] := value;
      }
      WriteMatchesView(old(arr[..]), windowIndex, i, value);
    }

    method Fill(item: T)
      requires Valid()
      modifies this, arr
      ensures Valid()
      ensures windowIndex == old(windowIndex) + size && Added == old(Added) + Repeat(item, size)
      ensures Length() == size
      ensures Contents() == Repeat(item, size)
    {
      ghost var startItems, startAdded := Items(), Added;
      for i := 0 to size
        invariant Valid()
        invariant windowIndex == old(windowIndex) + i
        invariant Added == startAdded + Repeat(item, i)
        invariant Items() == LastN(startItems + Repeat(item, i), size)
      {
        Add(item);
        FillStep(startItems, item, i, size);
        RepeatAppend(startAdded, item, i);
      }
      FillLeavesOnlyItem(startItems, item, size);
      assert Items() == Contents()[..size] == Contents();
    }
  }
}
