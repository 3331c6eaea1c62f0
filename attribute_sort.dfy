/**
 * The ordering step of `setAttrs`: a stable sort of a node's attributes by the
 * position of their names in the node's section of the attribute-order file.
 */
module AttributeSort {
  import opened SemanticTypes

  /** `order.indexOf(name)`: the first position of `name`, or -1 when it is not listed. */
  function IndexOf(order: seq<string>, name: string): (r: int)
    ensures -1 <= r < |order|
    ensures r == -1 <==> name !in order
    ensures r >= 0 ==> order[r] == name && name !in order[..r]
  {
    if order == [] then -1
    else if order[0] == name then 0
    else
      var k := IndexOf(order[1..], name);
      assert order[1..][..if k >= 0 then k else 0] == order[1..if k >= 0 then k + 1 else 1];
      if k == -1 then -1 else k + 1
  }

  function Key(order: seq<string>, a: Attribute): int
  {
    IndexOf(order, a.name)
  }

  predicate SortedBy(order: seq<string>, s: seq<Attribute>)
  {
    forall i, j :: 0 <= i < j < |s| ==> Key(order, s[i]) <= Key(order, s[j])
  }

  /** The elements of `s` whose key is `k`, in their order in `s`. */
  function WithKey(order: seq<string>, s: seq<Attribute>, k: int): (r: seq<Attribute>)
    ensures |r| <= |s|
  {
    if s == [] then []
    else (if Key(order, s[0]) == k then [s[0]] else []) + WithKey(order, s[1..], k)
  }

  /** Puts `x` in front of every element whose key is not smaller. */
  function InsertBy(order: seq<string>, x: Attribute, s: seq<Attribute>): (r: seq<Attribute>)
    requires SortedBy(order, s)
    ensures SortedBy(order, r)
    ensures multiset(r) == multiset(s) + multiset{x}
  {
    if s == [] || Key(order, x) <= Key(order, s[0]) then
      ConsSorted(order, x, s);
      [x] + s
    else
      var rest := InsertBy(order, x, s[1..]);
      assert s == [s[0]] + s[1..];
      LowerBoundKept(order, Key(order, s[0]), x, s[1..], rest);
      assert rest == [] || Key(order, s[0]) <= Key(order, rest[0]);
      ConsSorted(order, s[0], rest);
      [s[0]] + rest
  }

  /** An element whose key is at most the first key of a sorted list can go in front of it. */
  lemma ConsSorted(order: seq<string>, h: Attribute, s: seq<Attribute>)
    requires SortedBy(order, s)
    requires s == [] || Key(order, h) <= Key(order, s[0])
    ensures SortedBy(order, [h] + s)
  {
    var r := [h] + s;
    forall i, j | 0 <= i < j < |r|
      ensures Key(order, r[i]) <= Key(order, r[j])
    {
      if i == 0 {
        assert r[j] == s[j - 1];
        assert j - 1 == 0 || Key(order, s[0]) <= Key(order, s[j - 1]);
      } else {
        assert r[i] == s[i - 1] && r[j] == s[j - 1];
      }
    }
  }

  /** A bound below the key of `x` and of every element of `s` stays below every element of a permutation of `s` plus `x`. */
  lemma LowerBoundKept(order: seq<string>, b: int, x: Attribute, s: seq<Attribute>, r: seq<Attribute>)
    requires multiset(r) == multiset(s) + multiset{x}
    requires b <= Key(order, x)
    requires forall k :: 0 <= k < |s| ==> b <= Key(order, s[k])
    ensures forall k :: 0 <= k < |r| ==> b <= Key(order, r[k])
  {
    forall k | 0 <= k < |r|
      ensures b <= Key(order, r[k])
    {
      assert r[k] in multiset(r);
      if r[k] != x {
        assert r[k] in multiset(s);
        var j :| 0 <= j < |s| && s[j] == r[k];
      }
    }
  }

  /** Inserting `x` places it before every element with its own key. */
  lemma {:induction false} InsertByWithKey(order: seq<string>, x: Attribute, s: seq<Attribute>, k: int)
    requires SortedBy(order, s)
    ensures WithKey(order, InsertBy(order, x, s), k) == (if Key(order, x) == k then [x] else []) + WithKey(order, s, k)
  {
    if s == [] || Key(order, x) <= Key(order, s[0]) {
      WithKeyCons(order, x, s, k);
    } else {
      var rest := InsertBy(order, x, s[1..]);
      assert InsertBy(order, x, s) == [s[0]] + rest;
      InsertByWithKey(order, x, s[1..], k);
      WithKeyCons(order, s[0], rest, k);
      assert s == [s[0]] + s[1..];
      WithKeyCons(order, s[0], s[1..], k);
      SwapEmpty(if Key(order, s[0]) == k then [s[0]] else [], if Key(order, x) == k then [x] else [], WithKey(order, s[1..], k));
    }
  }

  /** Two pieces of which one is empty can be put in front of a third in either order. */
  lemma SwapEmpty<T>(a: seq<T>, b: seq<T>, c: seq<T>)
    requires a == [] || b == []
    ensures a + (b + c) == b + (a + c)
  {
  }

  lemma WithKeyCons(order: seq<string>, h: Attribute, s: seq<Attribute>, k: int)
    ensures WithKey(order, [h] + s, k) == (if Key(order, h) == k then [h] else []) + WithKey(order, s, k)
  {
    assert ([h] + s)[1..] == s;
  }

  /**
   * `attrs.sort((a, b) => order.indexOf(a.name) - order.indexOf(b.name))` with a stable sort:
   * ordered by index, a permutation of the input.
   */
  function SortByOrder(order: seq<string>, s: seq<Attribute>): (r: seq<Attribute>)
    ensures SortedBy(order, r)
    ensures multiset(r) == multiset(s)
  {
    if s == [] then []
    else
      assert s == [s[0]] + s[1..];
      InsertBy(order, s[0], SortByOrder(order, s[1..]))
  }

  /** Stability: attributes with the same index (all unlisted ones share -1) keep their relative order. */
  lemma {:induction false} SortByOrderStable(order: seq<string>, s: seq<Attribute>, k: int)
    ensures WithKey(order, SortByOrder(order, s), k) == WithKey(order, s, k)
  {
    if s != [] {
      SortByOrderStable(order, s[1..], k);
      InsertByWithKey(order, s[0], SortByOrder(order, s[1..]), k);
    }
  }

  /** In a list sorted by index, an unlisted name (index -1) stands before every listed one. */
  lemma SortedUnlistedFirst(order: seq<string>, r: seq<Attribute>, i: nat, j: nat)
    requires SortedBy(order, r) && i < |r| && j < |r|
    requires r[i].name !in order && r[j].name in order
    ensures i < j
  {
    assert Key(order, r[i]) == -1 && Key(order, r[j]) >= 0;
  }

  /** Attributes missing from the order section come before every listed one. */
  lemma UnlistedFirst(order: seq<string>, s: seq<Attribute>, i: nat, j: nat)
    requires i < |SortByOrder(order, s)| && j < |SortByOrder(order, s)|
    requires SortByOrder(order, s)[i].name !in order && SortByOrder(order, s)[j].name in order
    ensures i < j
  {
    SortedUnlistedFirst(order, SortByOrder(order, s), i, j);
  }
}
