/** The library's stable sort by a key, largest first; newest first when the key is a time. */
module StableSort {

  ghost predicate Descending<T>(l: seq<T>, key: T -> real) {
    forall i, j :: 0 <= i < j < |l| ==> key(l[i]) >= key(l[j])
  }

  /** Place an element behind those of its own key. */
  function Place<T>(x: T, l: seq<T>, key: T -> real): seq<T> {
    if l != [] && key(l[0]) >= key(x) then [l[0]] + Place(x, l[1..], key) else [x] + l
  }

  function Sort<T>(l: seq<T>, key: T -> real): seq<T> {
    if l == [] then [] else Place(l[|l| - 1], Sort(l[..|l| - 1], key), key)
  }

  /** The elements of one key, in order. */
  function WithKey<T>(l: seq<T>, key: T -> real, v: real): seq<T> {
    if l == [] then [] else (if key(l[0]) == v then [l[0]] else []) + WithKey(l[1..], key, v)
  }

  lemma {:induction false} PlacePermutes<T>(x: T, l: seq<T>, key: T -> real)
    ensures multiset(Place(x, l, key)) == multiset(l) + multiset{x}
  {
    if l != [] && key(l[0]) >= key(x) {
      PlacePermutes(x, l[1..], key);
      assert l == [l[0]] + l[1..];
    }
  }

  lemma {:induction false} PlaceKeepsOrder<T>(x: T, l: seq<T>, key: T -> real)
    requires Descending(l, key)
    ensures Descending(Place(x, l, key), key)
  {
    if l != [] && key(l[0]) >= key(x) {
      PlaceKeepsOrder(x, l[1..], key);
      PlacePermutes(x, l[1..], key);
      var p := Place(x, l[1..], key);
      forall j | 0 <= j < |p| ensures key(l[0]) >= key(p[j]) {
        assert p[j] in multiset(p);
        assert p[j] == x || p[j] in l[1..];
      }
    }
  }

  lemma {:induction false} PlaceAtEnd<T>(x: T, l: seq<T>, key: T -> real)
    requires forall j :: 0 <= j < |l| ==> key(l[j]) >= key(x)
    ensures Place(x, l, key) == l + [x]
  {
    if l != [] {
      PlaceAtEnd(x, l[1..], key);
    }
  }

  lemma {:induction false} SortIsASort<T>(l: seq<T>, key: T -> real)
    ensures multiset(Sort(l, key)) == multiset(l) && |Sort(l, key)| == |l|
    ensures Descending(Sort(l, key), key)
  {
    if l != [] {
      var x, rest := l[|l| - 1], l[..|l| - 1];
      SortIsASort(rest, key);
      PlacePermutes(x, Sort(rest, key), key);
      PlaceKeepsOrder(x, Sort(rest, key), key);
      assert l == rest + [x];
      assert |Sort(l, key)| == |multiset(Sort(l, key))| == |multiset(l)|;
    }
  }

  lemma {:induction false} SortOfSorted<T>(l: seq<T>, key: T -> real)
    requires Descending(l, key)
    ensures Sort(l, key) == l
  {
    if l != [] {
      SortOfSorted(l[..|l| - 1], key);
      PlaceAtEnd(l[|l| - 1], l[..|l| - 1], key);
    }
  }

  lemma {:induction false} WithKeyConcat<T>(l: seq<T>, m: seq<T>, key: T -> real, v: real)
    ensures WithKey(l + m, key, v) == WithKey(l, key, v) + WithKey(m, key, v)
  {
    if l == [] {
      assert l + m == m;
    } else {
      assert (l + m)[0] == l[0] && (l + m)[1..] == l[1..] + m;
      WithKeyConcat(l[1..], m, key, v);
      var first := if key(l[0]) == v then [l[0]] else [];
      var a, b := WithKey(l[1..], key, v), WithKey(m, key, v);
      assert first + (a + b) == first + a + b;
    }
  }

  lemma {:induction false} NoneWithKey<T>(l: seq<T>, key: T -> real, v: real)
    requires forall j :: 0 <= j < |l| ==> key(l[j]) < v
    ensures WithKey(l, key, v) == []
  {
    if l != [] {
      NoneWithKey(l[1..], key, v);
    }
  }

  lemma {:induction false} PlaceIsStable<T>(x: T, l: seq<T>, key: T -> real, v: real)
    requires Descending(l, key)
    ensures WithKey(Place(x, l, key), key, v) == WithKey(l, key, v) + WithKey([x], key, v)
  {
    if l != [] && key(l[0]) >= key(x) {
      PlaceIsStable(x, l[1..], key, v);
      WithKeyConcat([l[0]], Place(x, l[1..], key), key, v);
    } else {
      WithKeyConcat([x], l, key, v);
      if key(x) == v {
        NoneWithKey(l, key, v);
      } else {
        assert [x][1..] == [];
      }
    }
  }

  /** Elements of equal keys keep their order. */
  lemma {:induction false} SortIsStable<T>(l: seq<T>, key: T -> real, v: real)
    ensures WithKey(Sort(l, key), key, v) == WithKey(l, key, v)
  {
    if l != [] {
      var x, rest := l[|l| - 1], l[..|l| - 1];
      SortIsStable(rest, key, v);
      SortIsASort(rest, key);
      PlaceIsStable(x, Sort(rest, key), key, v);
      WithKeyConcat(rest, [x], key, v);
      assert l == rest + [x];
    }
  }

  // ----- the order as positions

  /** The position with the larger key first, the earlier one where the keys are equal. */
  predicate Precedes<T>(l: seq<T>, key: T -> real, i: nat, j: nat)
    requires i < |l| && j < |l|
  {
    key(l[i]) > key(l[j]) || (key(l[i]) == key(l[j]) && i < j)
  }

  /** Every position once, each before those it precedes. */
  ghost predicate IsOrder<T>(order: seq<nat>, l: seq<T>, key: T -> real) {
    && |order| == |l| && (forall k :: 0 <= k < |order| ==> order[k] < |l|)
    && (forall j, k :: 0 <= j < k < |order| ==> Precedes(l, key, order[j], order[k]))
    && (forall i: nat :: i < |l| ==> i in order)
  }

  function At<T>(l: seq<T>, order: seq<nat>): (m: seq<T>)
    requires forall k :: 0 <= k < |order| ==> order[k] < |l|
    ensures |m| == |order| && forall k :: 0 <= k < |order| ==> m[k] == l[order[k]]
  {
    seq(|order|, k requires 0 <= k < |order| => l[order[k]])
  }

  lemma {:induction false} PlaceAt<T>(x: T, l: seq<T>, key: T -> real) returns (c: nat)
    ensures c <= |l| && Place(x, l, key) == Inserted(l, c, x)
    ensures (forall j :: 0 <= j < c ==> key(l[j]) >= key(x)) && (c < |l| ==> key(l[c]) < key(x))
  {
    c := 0;
    if l != [] && key(l[0]) >= key(x) {
      var d := PlaceAt(x, l[1..], key);
      c := d + 1;
      InsertedBehind(l, d, x);
      assert forall j :: 0 < j < |l| ==> l[j] == l[1..][j - 1];
    }
  }

  lemma InsertedBehind<T>(l: seq<T>, c: nat, x: T)
    requires c < |l|
    ensures [l[0]] + Inserted(l[1..], c, x) == Inserted(l, c + 1, x)
  {}

  function Inserted<T>(l: seq<T>, c: nat, x: T): (m: seq<T>)
    requires c <= |l|
    ensures |m| == |l| + 1
    ensures forall k :: 0 <= k < |m| ==> m[k] == if k < c then l[k] else if k == c then x else l[k - 1]
  {
    l[..c] + [x] + l[c..]
  }

  lemma InsertedHas<T>(l: seq<T>, c: nat, x: T, y: T)
    requires c <= |l| && (y == x || y in l)
    ensures y in Inserted(l, c, x)
  {
    if y == x {
      assert Inserted(l, c, x)[c] == y;
    } else {
      var k :| 0 <= k < |l| && l[k] == y;
      assert Inserted(l, c, x)[if k < c then k else k + 1] == y;
    }
  }

  lemma OrderWithLast<T>(l: seq<T>, key: T -> real, order: seq<nat>, c: nat)
    requires l != [] && IsOrder(order, l[..|l| - 1], key) && c < |l|
    requires forall j :: 0 <= j < c ==> key(l[order[j]]) >= key(l[|l| - 1])
    requires forall j :: c <= j < |order| ==> key(l[order[j]]) < key(l[|l| - 1])
    ensures IsOrder(Inserted(order, c, |l| - 1), l, key)
  {
    var n := |l| - 1;
    var all := Inserted(order, c, n);
    forall j, k | 0 <= j < k < |order| ensures Precedes(l, key, order[j], order[k]) {
      assert Precedes(l[..n], key, order[j], order[k]);
    }
    forall i: nat | i < |l| ensures i in all {
      InsertedHas(order, c, n, i);
    }
  }

  /** Where the last element goes among the others. */
  lemma LastPlace<T>(l: seq<T>, key: T -> real, order: seq<nat>) returns (c: nat)
    requires l != [] && IsOrder(order, l[..|l| - 1], key) && Sort(l[..|l| - 1], key) == At(l[..|l| - 1], order)
    ensures c < |l|
    ensures forall j :: 0 <= j < c ==> key(l[order[j]]) >= key(l[|l| - 1])
    ensures forall j :: c <= j < |order| ==> key(l[order[j]]) < key(l[|l| - 1])
    ensures Sort(l, key) == Inserted(At(l[..|l| - 1], order), c, l[|l| - 1])
  {
    var n := |l| - 1;
    var sorted := Sort(l[..n], key);
    SortIsASort(l[..n], key);
    c := PlaceAt(l[n], sorted, key);
    forall j | 0 <= j < c ensures key(l[order[j]]) >= key(l[n]) {
      assert sorted[j] == l[order[j]];
    }
    forall j | c <= j < |order| ensures key(l[order[j]]) < key(l[n]) {
      assert sorted[j] == l[order[j]] && key(sorted[c]) >= key(sorted[j]);
    }
  }

  /** The sort lists the elements in that order. */
  lemma {:induction false} SortOrder<T>(l: seq<T>, key: T -> real) returns (order: seq<nat>)
    ensures IsOrder(order, l, key) && Sort(l, key) == At(l, order)
  {
    order := [];
    if l != [] {
      var behind := SortOrder(l[..|l| - 1], key);
      var c := LastPlace(l, key, behind);
      OrderWithLast(l, key, behind, c);
      order := Inserted(behind, c, |l| - 1);
      assert Inserted(At(l[..|l| - 1], behind), c, l[|l| - 1]) == At(l, order);
    }
  }
}
