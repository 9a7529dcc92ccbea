/** Python's `list.sort(key=...)`: a stable sort, here on integer keys.
    A stable sort has exactly one possible result, so the insertion sort
    `Sort` below is the specification of `list.sort`, and `SortInPlace`
    is proved to leave that result in the array. */
module StableSort {

  /** Inserts `x` into `t` behind every element whose key is not greater
      than its own, scanning from the back as an in-place insertion does. */
  function Insert<T>(t: seq<T>, x: T, key: T -> int): (r: seq<T>)
    ensures |r| == |t| + 1
  {
    if t == [] || key(t[|t| - 1]) <= key(x) then t + [x]
    else Insert(t[..|t| - 1], x, key) + [t[|t| - 1]]
  }

  function Sort<T>(s: seq<T>, key: T -> int): (r: seq<T>)
    ensures |r| == |s|
  {
    if s == [] then []
    else Insert(Sort(s[..|s| - 1], key), s[|s| - 1], key)
  }

  lemma {:induction false} InsertPermutes<T>(t: seq<T>, x: T, key: T -> int)
    ensures multiset(Insert(t, x, key)) == multiset(t) + multiset{x}
    decreases |t|
  {
    if t != [] && key(t[|t| - 1]) > key(x) {
      var init := t[..|t| - 1];
      assert t == init + [t[|t| - 1]];
      InsertPermutes(init, x, key);
    }
  }

  /** `Sort` only reorders: the result is a permutation of its input. */
  lemma {:induction false} SortPermutes<T>(s: seq<T>, key: T -> int)
    ensures multiset(Sort(s, key)) == multiset(s)
    decreases |s|
  {
    if s != [] {
      var init := s[..|s| - 1];
      assert s == init + [s[|s| - 1]];
      SortPermutes(init, key);
      InsertPermutes(Sort(init, key), s[|s| - 1], key);
    }
  }

  ghost predicate SortedBy<T>(s: seq<T>, key: T -> int) {
    forall i, j | 0 <= i < j < |s| :: key(s[i]) <= key(s[j])
  }

  /** The elements of `s` whose key is `k`, in their order in `s`. */
  function WithKey<T>(s: seq<T>, key: T -> int, k: int): (r: seq<T>)
    ensures |r| <= |s|
  {
    if s == [] then []
    else WithKey(s[..|s| - 1], key, k) + (if key(s[|s| - 1]) == k then [s[|s| - 1]] else [])
  }

  lemma {:induction false} InsertSorted<T>(t: seq<T>, x: T, key: T -> int)
    requires SortedBy(t, key)
    ensures SortedBy(Insert(t, x, key), key)
    decreases |t|
  {
    if t == [] || key(t[|t| - 1]) <= key(x) {
    } else {
      var init := t[..|t| - 1];
      InsertSorted(init, x, key);
      var r := Insert(init, x, key);
      InsertPermutes(init, x, key);
      forall y | y in r ensures key(y) <= key(t[|t| - 1]) {
        assert y in multiset(r);
        if y != x {
          assert y in multiset(init);
          var i :| 0 <= i < |init| && init[i] == y;
        }
      }
    }
  }

  /** The result of `Sort` is ordered by key. */
  lemma {:induction false} SortSorted<T>(s: seq<T>, key: T -> int)
    ensures SortedBy(Sort(s, key), key)
    decreases |s|
  {
    if s != [] {
      SortSorted(s[..|s| - 1], key);
      InsertSorted(Sort(s[..|s| - 1], key), s[|s| - 1], key);
    }
  }

  lemma {:induction false} WithKeyAppend<T>(a: seq<T>, b: seq<T>, key: T -> int, k: int)
    ensures WithKey(a + b, key, k) == WithKey(a, key, k) + WithKey(b, key, k)
    decreases |b|
  {
    if b == [] {
      assert a + b == a;
    } else {
      var b' := b[..|b| - 1];
      assert (a + b)[..|a + b| - 1] == a + b';
      WithKeyAppend(a, b', key, k);
    }
  }

  lemma {:induction false} WithKeyInsert<T>(t: seq<T>, x: T, key: T -> int, k: int)
    ensures WithKey(Insert(t, x, key), key, k)
            == WithKey(t, key, k) + (if key(x) == k then [x] else [])
    decreases |t|
  {
    if t == [] || key(t[|t| - 1]) <= key(x) {
      WithKeyAppend(t, [x], key, k);
      assert WithKey([x], key, k) == WithKey([], key, k) + (if key(x) == k then [x] else []);
    } else {
      var init, last := t[..|t| - 1], t[|t| - 1];
      WithKeyInsert(init, x, key, k);
      WithKeyAppend(Insert(init, x, key), [last], key, k);
      assert WithKey([last], key, k) == WithKey([], key, k) + (if key(last) == k then [last] else []);
      assert WithKey([x], key, k) == WithKey([], key, k) + (if key(x) == k then [x] else []);
      // x and last cannot both have key k, since key(last) > key(x)
    }
  }

  /** `Sort` is stable: the elements sharing any one key keep their order. */
  lemma {:induction false} SortStable<T>(s: seq<T>, key: T -> int, k: int)
    ensures WithKey(Sort(s, key), key, k) == WithKey(s, key, k)
    decreases |s|
  {
    if s != [] {
      var init := s[..|s| - 1];
      SortStable(init, key, k);
      WithKeyInsert(Sort(init, key), s[|s| - 1], key, k);
    }
  }

  lemma ConsSlice<T>(t: seq<T>, j: nat)
    requires 0 < j <= |t|
    ensures t[j - 1..] == [t[j - 1]] + t[j..]
  {
  }

  /** Moving `x` in front of a last element with a greater key. */
  lemma InsertPast<T>(t: seq<T>, x: T, key: T -> int, j: nat)
    requires 0 < j <= |t| && key(t[j - 1]) > key(x)
    ensures Insert(t[..j], x, key) == Insert(t[..j - 1], x, key) + [t[j - 1]]
  {
    var u := t[..j];
    assert u[|u| - 1] == t[j - 1] && u[..|u| - 1] == t[..j - 1];
  }

  /** One step of the backward insertion scan. */
  lemma InsertShift<T>(t: seq<T>, x: T, key: T -> int, j: nat)
    requires 0 < j <= |t| && key(t[j - 1]) > key(x)
    requires Insert(t, x, key) == Insert(t[..j], x, key) + t[j..]
    ensures Insert(t, x, key) == Insert(t[..j - 1], x, key) + t[j - 1..]
  {
    InsertPast(t, x, key, j);
    ConsSlice(t, j);
  }

  /** Where the backward scan stops, `x` goes. */
  lemma InsertStop<T>(t: seq<T>, x: T, key: T -> int, j: nat)
    requires j <= |t| && (j == 0 || key(t[j - 1]) <= key(x))
    requires Insert(t, x, key) == Insert(t[..j], x, key) + t[j..]
    ensures Insert(t, x, key) == t[..j] + [x] + t[j..]
  {
  }

  /** Copying the element before the gap into the gap moves the gap one
      place to the front. */
  lemma ShiftGap<T>(t: seq<T>, y: T, rest: seq<T>, j: nat)
    requires 0 < j <= |t|
    ensures (t[..j] + [y] + t[j..] + rest)[j := t[j - 1]] == t[..j - 1] + [t[j - 1]] + t[j - 1..] + rest
  {
    ConsSlice(t, j);
    assert t[..j] == t[..j - 1] + [t[j - 1]];
  }

  /** Filling the gap leaves `x` between the two parts of `t`. */
  lemma FillGap<T>(t: seq<T>, y: T, x: T, rest: seq<T>, j: nat)
    requires j <= |t|
    ensures var u := (t[..j] + [y] + t[j..] + rest)[j := x];
            u[..|t| + 1] == t[..j] + [x] + t[j..] && u[|t| + 1..] == rest
  {
    var u := (t[..j] + [y] + t[j..] + rest)[j := x];
    assert u == (t[..j] + [x] + t[j..]) + rest;
  }

  /** Moves the element at `i` back over the greater elements before it,
      so that `a[..i + 1]` becomes `Insert(a[..i], a[i])`. */
  method InsertLast<T>(a: array<T>, i: nat, key: T -> int)
    requires i < a.Length
    modifies a
    ensures a[..i + 1] == Insert(old(a[..i]), old(a[i]), key)
    ensures a[i + 1..] == old(a[i + 1..])
  {
    ghost var t, rest := a[..i], a[i + 1..];
    var x := a[i];
    var j := i;
    assert t[..j] == t && t[j..] == [];
    assert a[..] == t[..j] + [x] + t[j..] + rest;
    while j > 0 && key(a[j - 1]) > key(x)
      invariant 0 <= j <= i
      invariant a[..] == t[..j] + [a[j]] + t[j..] + rest
      invariant Insert(t, x, key) == Insert(t[..j], x, key) + t[j..]
    {
      assert a[j - 1] == a[..][j - 1] == t[j - 1];
      InsertShift(t, x, key, j);
      ShiftGap(t, a[j], rest, j);
      ghost var before := a[..];
      a[j] := a[j - 1];
      assert a[..] == before[j := t[j - 1]];
      j := j - 1;
    }
    assert j > 0 ==> a[j - 1] == a[..][j - 1] == t[j - 1];
    InsertStop(t, x, key, j);
    FillGap(t, a[j], x, rest, j);
    ghost var before := a[..];
    a[j] := x;
    assert a[..] == before[j := x];
  }

  /** The in-place insertion sort of `list.sort`: the array ends up holding
      `Sort` of what it held. */
  method SortInPlace<T>(a: array<T>, key: T -> int)
    modifies a
    ensures a[..] == Sort(old(a[..]), key)
  {
    ghost var s := a[..];
    var i := 0;
    while i < a.Length
      invariant 0 <= i <= a.Length
      invariant a[..i] == Sort(s[..i], key)
      invariant a[i..] == s[i..]
    {
      ghost var sorted, x := a[..i], a[i];
      InsertLast(a, i, key);
      assert s[..i + 1][..i] == s[..i];
      i := i + 1;
    }
    assert s[..a.Length] == s && a[..a.Length] == a[..];
  }
}
