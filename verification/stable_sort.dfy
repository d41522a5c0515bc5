/** A stable sort by a real-valued key, ascending or descending: the sort
    the extremes selector relies on (Python's sorted with and without
    reverse=True, both of which keep equal keys in arrival order). */
module StableSort {

  /** A key `a` may stand before a key `b`: `a <= b` ascending, `a >= b` descending. */
  predicate Precedes(a: real, b: real, desc: bool) {
    if desc then a >= b else a <= b
  }

  ghost predicate SortedBy<T>(s: seq<T>, key: T -> real, desc: bool) {
    forall i, j :: 0 <= i < j < |s| ==> Precedes(key(s[i]), key(s[j]), desc)
  }

  /** The elements of `s` whose key is `v`, in their order in `s`. */
  function WithKey<T>(s: seq<T>, key: T -> real, v: real): seq<T> {
    if |s| == 0 then [] else (if key(s[0]) == v then [s[0]] else []) + WithKey(s[1..], key, v)
  }

  /** `s` is a stable sort of `input`: sorted, and every group of equal keys
      appears in the order it had in the input. */
  ghost predicate StableSortOf<T>(s: seq<T>, input: seq<T>, key: T -> real, desc: bool) {
    && SortedBy(s, key, desc)
    && forall v :: WithKey(s, key, v) == WithKey(input, key, v)
  }

  lemma {:induction false} WithKeyAppend<T>(a: seq<T>, b: seq<T>, key: T -> real, v: real)
    ensures WithKey(a + b, key, v) == WithKey(a, key, v) + WithKey(b, key, v)
  {
    if |a| == 0 {
      assert a + b == b;
    } else {
      var h := if key(a[0]) == v then [a[0]] else [];
      assert (a + b)[0] == a[0];
      assert (a + b)[1..] == a[1..] + b;
      assert WithKey(a + b, key, v) == h + WithKey(a[1..] + b, key, v);
      WithKeyAppend(a[1..], b, key, v);
      assert h + (WithKey(a[1..], key, v) + WithKey(b, key, v)) == (h + WithKey(a[1..], key, v)) + WithKey(b, key, v);
    }
  }

  lemma {:induction false} WithKeyNone<T>(s: seq<T>, key: T -> real, v: real)
    requires forall i :: 0 <= i < |s| ==> key(s[i]) != v
    ensures WithKey(s, key, v) == []
  {
    if |s| > 0 {
      WithKeyNone(s[1..], key, v);
    }
  }

  /** Insert `x` after every element whose key may precede it, so that it
      follows the equal keys already placed. */
  function Insert<T>(x: T, s: seq<T>, key: T -> real, desc: bool): (r: seq<T>)
    ensures |r| == |s| + 1
  {
    if |s| == 0 then [x]
    else if Precedes(key(s[0]), key(x), desc) then [s[0]] + Insert(x, s[1..], key, desc)
    else [x] + s
  }

  /** Insert adds `x` and nothing else. */
  lemma {:induction false} InsertPermutes<T>(x: T, s: seq<T>, key: T -> real, desc: bool)
    ensures multiset(Insert(x, s, key, desc)) == multiset(s) + multiset{x}
  {
    if |s| > 0 && Precedes(key(s[0]), key(x), desc) {
      InsertPermutes(x, s[1..], key, desc);
      assert s == [s[0]] + s[1..];
    }
  }

  lemma {:induction false} InsertSorted<T>(x: T, s: seq<T>, key: T -> real, desc: bool)
    requires SortedBy(s, key, desc)
    ensures SortedBy(Insert(x, s, key, desc), key, desc)
  {
    if |s| > 0 && Precedes(key(s[0]), key(x), desc) {
      var rest := Insert(x, s[1..], key, desc);
      InsertSorted(x, s[1..], key, desc);
      InsertPermutes(x, s[1..], key, desc);
      forall j | 0 <= j < |rest|
        ensures Precedes(key(s[0]), key(rest[j]), desc)
      {
        assert rest[j] in multiset(rest);
        if rest[j] != x {
          assert rest[j] in multiset(s[1..]);
          var k :| 0 <= k < |s[1..]| && s[1..][k] == rest[j];
          assert s[k + 1] == rest[j];
        }
      }
      assert Insert(x, s, key, desc) == [s[0]] + rest;
    }
  }

  /** Inserting `x` appends it to the group of its key and leaves the other
      groups alone. */
  lemma {:induction false} InsertWithKey<T>(x: T, s: seq<T>, key: T -> real, desc: bool, v: real)
    requires SortedBy(s, key, desc)
    ensures WithKey(Insert(x, s, key, desc), key, v) == WithKey(s, key, v) + (if key(x) == v then [x] else [])
  {
    if |s| == 0 {
      assert Insert(x, s, key, desc) == [x];
      WithKeySingle(x, key, v);
    } else if Precedes(key(s[0]), key(x), desc) {
      var rest := Insert(x, s[1..], key, desc);
      assert Insert(x, s, key, desc) == [s[0]] + rest;
      InsertWithKey(x, s[1..], key, desc, v);
      WithKeyCons(s[0], rest, key, v);
      WithKeyCons(s[0], s[1..], key, v);
      assert [s[0]] + s[1..] == s;
    } else {
      InsertInFront(x, s, key, desc, v);
    }
  }

  lemma WithKeySingle<T>(x: T, key: T -> real, v: real)
    ensures WithKey([x], key, v) == if key(x) == v then [x] else []
  {
    assert [x][1..] == [];
  }

  lemma WithKeyCons<T>(x: T, s: seq<T>, key: T -> real, v: real)
    ensures WithKey([x] + s, key, v) == (if key(x) == v then [x] else []) + WithKey(s, key, v)
  {
    assert ([x] + s)[0] == x;
    assert ([x] + s)[1..] == s;
  }

  /** `x` inserted in front of a sorted `s` whose first key may not precede
      it: no key of `s` equals key(x). */
  lemma InsertInFront<T>(x: T, s: seq<T>, key: T -> real, desc: bool, v: real)
    requires SortedBy(s, key, desc)
    requires |s| > 0 && !Precedes(key(s[0]), key(x), desc)
    ensures WithKey(Insert(x, s, key, desc), key, v) == WithKey(s, key, v) + (if key(x) == v then [x] else [])
  {
    assert Insert(x, s, key, desc) == [x] + s;
    WithKeyCons(x, s, key, v);
    if key(x) == v {
      forall i | 0 <= i < |s| ensures key(s[i]) != v {
        if i > 0 { assert Precedes(key(s[0]), key(s[i]), desc); }
      }
      WithKeyNone(s, key, v);
    }
  }

  /** Inserting the last arrival of `s` into a stable sort of the earlier
      ones gives a stable sort of all of `s`. */
  lemma InsertKeepsStable<T>(sorted: seq<T>, s: seq<T>, key: T -> real, desc: bool)
    requires |s| > 0
    requires StableSortOf(sorted, s[..|s| - 1], key, desc)
    ensures StableSortOf(Insert(s[|s| - 1], sorted, key, desc), s, key, desc)
  {
    var x := s[|s| - 1];
    var init := s[..|s| - 1];
    InsertSorted(x, sorted, key, desc);
    assert init + [x] == s;
    forall v ensures WithKey(Insert(x, sorted, key, desc), key, v) == WithKey(s, key, v) {
      InsertWithKey(x, sorted, key, desc, v);
      WithKeyAppend(init, [x], key, v);
      assert WithKey([x], key, v) == (if key(x) == v then [x] else []) + WithKey([x][1..], key, v);
    }
  }

  /** Where Insert puts `x`: after the elements of `before`, all of which
      may precede it, and in front of `after`, whose first may not. */
  lemma {:induction false} InsertAt<T>(x: T, before: seq<T>, after: seq<T>, key: T -> real, desc: bool)
    requires forall i :: 0 <= i < |before| ==> Precedes(key(before[i]), key(x), desc)
    requires |after| > 0 ==> !Precedes(key(after[0]), key(x), desc)
    ensures Insert(x, before + after, key, desc) == before + [x] + after
  {
    if |before| == 0 {
      assert before + after == after;
    } else {
      assert (before + after)[1..] == before[1..] + after;
      InsertAt(x, before[1..], after, key, desc);
      assert before + [x] + after == [before[0]] + (before[1..] + [x] + after);
    }
  }

  /** Insertion sort: each element, in arrival order, inserted into the
      sorted earlier ones. */
  function Sort<T>(s: seq<T>, key: T -> real, desc: bool): (r: seq<T>)
    ensures |r| == |s|
  {
    if |s| == 0 then [] else Insert(s[|s| - 1], Sort(s[..|s| - 1], key, desc), key, desc)
  }

  /** Sort is a permutation of its input. */
  lemma {:induction false} SortPermutes<T>(s: seq<T>, key: T -> real, desc: bool)
    ensures multiset(Sort(s, key, desc)) == multiset(s)
  {
    if |s| > 0 {
      var init := s[..|s| - 1];
      var x := s[|s| - 1];
      var sorted := Sort(init, key, desc);
      assert init + [x] == s;
      calc {
        multiset(Sort(s, key, desc));
        multiset(Insert(x, sorted, key, desc));
        { InsertPermutes(x, sorted, key, desc); }
        multiset(sorted) + multiset{x};
        { SortPermutes(init, key, desc); }
        multiset(init) + multiset{x};
        multiset(init + [x]);
      }
    }
  }

  /** Sort is a stable sort of its input. */
  lemma {:induction false} SortIsStable<T>(s: seq<T>, key: T -> real, desc: bool)
    ensures StableSortOf(Sort(s, key, desc), s, key, desc)
  {
    if |s| > 0 {
      var sorted := Sort(s[..|s| - 1], key, desc);
      assert Sort(s, key, desc) == Insert(s[|s| - 1], sorted, key, desc);
      SortIsStable(s[..|s| - 1], key, desc);
      InsertKeepsStable(sorted, s, key, desc);
    }
  }

  /** Two stable sorts of the same input are equal: StableSortOf pins the
      result down completely, so Sort is the stable sort. */
  lemma {:induction false} StableSortUnique<T>(a: seq<T>, b: seq<T>, key: T -> real, desc: bool)
    requires SortedBy(a, key, desc) && SortedBy(b, key, desc)
    requires forall v :: WithKey(a, key, v) == WithKey(b, key, v)
    ensures a == b
    decreases |a|
  {
    SameGroupsSameEmptiness(a, b, key);
    if |a| > 0 {
      var ka, kb := key(a[0]), key(b[0]);
      FirstKeyLeads(a, b, key, desc);
      FirstKeyLeads(b, a, key, desc);
      assert ka == kb;
      assert WithKey(a, key, ka)[0] == a[0];
      assert WithKey(b, key, ka)[0] == b[0];
      assert a[0] == b[0];
      forall v ensures WithKey(a[1..], key, v) == WithKey(b[1..], key, v) {
        var p := if ka == v then [a[0]] else [];
        assert WithKey(a, key, v) == p + WithKey(a[1..], key, v);
        assert WithKey(b, key, v) == p + WithKey(b[1..], key, v);
        assert WithKey(a[1..], key, v) == (p + WithKey(a[1..], key, v))[|p|..];
        assert WithKey(b[1..], key, v) == (p + WithKey(b[1..], key, v))[|p|..];
      }
      StableSortUnique(a[1..], b[1..], key, desc);
      assert a == [a[0]] + a[1..];
      assert b == [b[0]] + b[1..];
    }
  }

  lemma SameGroupsSameEmptiness<T>(a: seq<T>, b: seq<T>, key: T -> real)
    requires forall v :: WithKey(a, key, v) == WithKey(b, key, v)
    ensures |a| == 0 <==> |b| == 0
  {
    if |a| > 0 {
      assert WithKey(a, key, key(a[0])) != [];
    }
    if |b| > 0 {
      assert WithKey(b, key, key(b[0])) != [];
    }
  }

  /** The first key of a sorted sequence may precede the first key of any
      sequence with the same key groups. */
  lemma FirstKeyLeads<T>(a: seq<T>, b: seq<T>, key: T -> real, desc: bool)
    requires |a| > 0 && |b| > 0
    requires SortedBy(a, key, desc)
    requires forall v :: WithKey(a, key, v) == WithKey(b, key, v)
    ensures Precedes(key(a[0]), key(b[0]), desc)
  {
    var kb := key(b[0]);
    assert WithKey(b, key, kb) != [];
    if forall i :: 0 <= i < |a| ==> key(a[i]) != kb {
      WithKeyNone(a, key, kb);
    }
    var i :| 0 <= i < |a| && key(a[i]) == kb;
    if i > 0 {
      assert Precedes(key(a[0]), key(a[i]), desc);
    }
  }

  /** In a sorted sequence, every element after the first `m` may come after
      each of the first `m`. */
  lemma PrefixLeads<T>(s: seq<T>, m: nat, key: T -> real, desc: bool)
    requires SortedBy(s, key, desc)
    requires m <= |s|
    ensures forall i, x :: 0 <= i < m && x in multiset(s) - multiset(s[..m]) ==> Precedes(key(s[i]), key(x), desc)
  {
    assert s == s[..m] + s[m..];
    forall i, x | 0 <= i < m && x in multiset(s) - multiset(s[..m])
      ensures Precedes(key(s[i]), key(x), desc)
    {
      assert multiset(s) == multiset(s[..m]) + multiset(s[m..]);
      assert x in multiset(s[m..]);
      var j :| 0 <= j < |s[m..]| && s[m..][j] == x;
      assert s[m + j] == x;
    }
  }

  /** The first `k` elements, or all of them when there are fewer. */
  function Take<T>(s: seq<T>, k: nat): (r: seq<T>)
    ensures |r| == if |s| < k then |s| else k
    ensures r <= s
  {
    if |s| < k then s else s[..k]
  }
}
