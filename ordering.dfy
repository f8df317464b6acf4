/** `orderInputs` of src/App.js: the three comparators of the sort select,
    the stable sort that `Array.prototype.sort` performs with them, and the
    in-place sort of the copied array. */
module Ordering {
  import opened Items

  // ---------------------------------------------------------------------
  // Comparators

  /** Lexicographic comparison by character code, standing in for
      `String.prototype.localeCompare`: negative, zero or positive. */
  function CompareText(a: string, b: string): (c: int)
    ensures -1 <= c <= 1
  {
    if a == [] && b == [] then 0
    else if a == [] then -1
    else if b == [] then 1
    else if a[0] < b[0] then -1
    else if a[0] > b[0] then 1
    else CompareText(a[1..], b[1..])
  }

  /** Only equal texts compare as equal. */
  lemma {:induction false} CompareTextZero(a: string, b: string)
    ensures CompareText(a, b) == 0 <==> a == b
  {
    if a != [] && b != [] && a[0] == b[0] {
      CompareTextZero(a[1..], b[1..]);
      assert a == [a[0]] + a[1..] && b == [b[0]] + b[1..];
    }
  }

  lemma {:induction false} CompareTextFlip(a: string, b: string)
    ensures CompareText(a, b) == -CompareText(b, a)
  {
    if a != [] && b != [] && a[0] == b[0] {
      CompareTextFlip(a[1..], b[1..]);
    }
  }

  lemma {:induction false} CompareTextTransitive(a: string, b: string, c: string)
    requires CompareText(a, b) <= 0 && CompareText(b, c) <= 0
    ensures CompareText(a, c) <= 0
  {
    if a != [] && b != [] && c != [] && a[0] == b[0] == c[0] {
      CompareTextTransitive(a[1..], b[1..], c[1..]);
    }
  }

  /** The three sort criteria of the select. */
  datatype Order = ByDescription | ByPacked | ByInput

  /** The select value `selectedValue` decides the criterion; any other value sorts nothing. */
  function OrderOf(selectedValue: string): (o: Option<Order>)
    ensures o == Some(ByDescription) <==> selectedValue == "description"
    ensures o == Some(ByPacked) <==> selectedValue == "packed"
    ensures o == Some(ByInput) <==> selectedValue == "input"
  {
    match selectedValue
    case "description" => Some(ByDescription)
    case "packed" => Some(ByPacked)
    case "input" => Some(ByInput)
    case _ => None
  }

  /** The comparator passed to `sort`: negative when `a` belongs before `b`,
      positive when after, zero for a tie. */
  function Compare(order: Order, a: Item, b: Item): int {
    match order
    case ByDescription => CompareText(a.description, b.description)
    case ByPacked => if a.packed == b.packed then 0 else if a.packed then 1 else -1
    case ByInput => a.id - b.id
  }

  /** What each comparator's result means: the description and packed
      comparators answer -1, 0 or 1; descriptions tie only when equal; unpacked
      items go before packed ones; smaller ids go first. */
  lemma CompareSign(order: Order, a: Item, b: Item)
    ensures order != ByInput ==> -1 <= Compare(order, a, b) <= 1
    ensures order == ByDescription ==> (Compare(order, a, b) == 0 <==> a.description == b.description)
    ensures order == ByPacked ==>
              && (Compare(order, a, b) == 0 <==> a.packed == b.packed)
              && (Compare(order, a, b) < 0 <==> !a.packed && b.packed)
    ensures order == ByInput ==>
              && (Compare(order, a, b) == 0 <==> a.id == b.id)
              && (Compare(order, a, b) < 0 <==> a.id < b.id)
  {
    CompareTextZero(a.description, b.description);
  }

  /** Each comparator is consistent: swapping the arguments flips the sign. */
  lemma CompareAntisymmetric(order: Order, a: Item, b: Item)
    ensures Compare(order, a, b) > 0 <==> Compare(order, b, a) < 0
    ensures Compare(order, a, b) == 0 <==> Compare(order, b, a) == 0
  {
    CompareTextFlip(a.description, b.description);
  }

  /** Each comparator's "not after" relation is transitive. */
  lemma CompareTransitive(order: Order, a: Item, b: Item, c: Item)
    requires Compare(order, a, b) <= 0 && Compare(order, b, c) <= 0
    ensures Compare(order, a, c) <= 0
  {
    if order == ByDescription {
      CompareTextTransitive(a.description, b.description, c.description);
    }
  }

  /** Every item ties with itself. */
  lemma CompareReflexive(order: Order, a: Item)
    ensures Compare(order, a, a) == 0
  {
    CompareTextZero(a.description, a.description);
  }

  /** Ties form an equivalence: two items that tie with a third tie with each other. */
  lemma TieTransitive(order: Order, a: Item, b: Item, e: Item)
    requires Compare(order, a, e) == 0 && Compare(order, b, e) == 0
    ensures Compare(order, a, b) == 0
  {
    CompareAntisymmetric(order, a, e);
    CompareAntisymmetric(order, b, e);
    CompareAntisymmetric(order, a, b);
    CompareTransitive(order, a, e, b);
    CompareTransitive(order, b, e, a);
  }

  // ---------------------------------------------------------------------
  // Sortedness and stability

  /** No item is placed after one the comparator puts after it. */
  predicate Sorted(order: Order, s: seq<Item>) {
    forall i, j :: 0 <= i < j < |s| ==> Compare(order, s[i], s[j]) <= 0
  }

  /** The items of `s` that tie with `e`, in their order in `s`. */
  function Ties(order: Order, e: Item, s: seq<Item>): seq<Item> {
    if s == [] then []
    else Ties(order, e, s[..|s| - 1]) + (if Compare(order, s[|s| - 1], e) == 0 then [s[|s| - 1]] else [])
  }

  lemma {:induction false} TiesAppend(order: Order, e: Item, a: seq<Item>, b: seq<Item>)
    ensures Ties(order, e, a + b) == Ties(order, e, a) + Ties(order, e, b)
  {
    if b != [] {
      assert (a + b)[..|a + b| - 1] == a + b[..|b| - 1];
      TiesAppend(order, e, a, b[..|b| - 1]);
    } else {
      assert a + b == a;
    }
  }

  /** A sort is stable when, for every item, the items tying with it keep their relative order. */
  ghost predicate Stable(order: Order, s: seq<Item>, r: seq<Item>) {
    forall e :: Ties(order, e, r) == Ties(order, e, s)
  }

  // ---------------------------------------------------------------------
  // The stable sort, as insertion sort

  /** Inserts `x` after the last element of `t` that the comparator does not put after it. */
  function Insert(order: Order, t: seq<Item>, x: Item): (r: seq<Item>)
    ensures |r| == |t| + 1
  {
    if t == [] || Compare(order, t[|t| - 1], x) <= 0 then t + [x]
    else Insert(order, t[..|t| - 1], x) + [t[|t| - 1]]
  }

  lemma {:induction false} InsertPermutation(order: Order, t: seq<Item>, x: Item)
    ensures multiset(Insert(order, t, x)) == multiset(t) + multiset{x}
  {
    if t != [] && Compare(order, t[|t| - 1], x) > 0 {
      InsertPermutation(order, t[..|t| - 1], x);
      assert t == t[..|t| - 1] + [t[|t| - 1]];
    }
  }

  /** The result of a stable sort of `s` under the comparator of `order`. */
  function SortBy(order: Order, s: seq<Item>): (r: seq<Item>)
    ensures |r| == |s|
  {
    if s == [] then []
    else Insert(order, SortBy(order, s[..|s| - 1]), s[|s| - 1])
  }

  /** The sort is a permutation of its input. */
  lemma {:induction false} SortByPermutation(order: Order, s: seq<Item>)
    ensures multiset(SortBy(order, s)) == multiset(s)
  {
    if s != [] {
      var init, last := s[..|s| - 1], s[|s| - 1];
      SortByPermutation(order, init);
      InsertPermutation(order, SortBy(order, init), last);
      assert SortBy(order, s) == Insert(order, SortBy(order, init), last);
      MultisetSnoc(s);
    }
  }

  /** Appending an item no earlier item is put after keeps a list sorted. */
  lemma SortedSnoc(order: Order, s: seq<Item>, y: Item)
    requires Sorted(order, s)
    requires forall i :: 0 <= i < |s| ==> Compare(order, s[i], y) <= 0
    ensures Sorted(order, s + [y])
  {
    var r := s + [y];
    forall i, j | 0 <= i < j < |r| ensures Compare(order, r[i], r[j]) <= 0 {
      if j < |s| {
        assert r[i] == s[i] && r[j] == s[j];
      }
    }
  }

  /** In a sorted list, every item before the last, and any item put no
      later than the last, stay at or before the last. */
  lemma BelowLast(order: Order, t: seq<Item>, front: seq<Item>, x: Item)
    requires Sorted(order, t) && t != []
    requires multiset(front) == multiset(t[..|t| - 1]) + multiset{x}
    requires Compare(order, x, t[|t| - 1]) <= 0
    ensures forall i :: 0 <= i < |front| ==> Compare(order, front[i], t[|t| - 1]) <= 0
  {
    var init := t[..|t| - 1];
    forall i | 0 <= i < |front| ensures Compare(order, front[i], t[|t| - 1]) <= 0 {
      assert front[i] in multiset(front);
      if front[i] != x {
        assert front[i] in multiset(init);
        var k :| 0 <= k < |init| && init[k] == front[i];
        assert t[k] == front[i];
      }
    }
  }

  lemma {:induction false} InsertSorted(order: Order, t: seq<Item>, x: Item)
    requires Sorted(order, t)
    ensures Sorted(order, Insert(order, t, x))
  {
    if t == [] {
      assert Insert(order, t, x) == [x];
    } else if Compare(order, t[|t| - 1], x) <= 0 {
      forall i | 0 <= i < |t| ensures Compare(order, t[i], x) <= 0 {
        if i < |t| - 1 {
          CompareTransitive(order, t[i], t[|t| - 1], x);
        }
      }
      SortedSnoc(order, t, x);
    } else {
      var init := t[..|t| - 1];
      assert Sorted(order, init);
      InsertSorted(order, init, x);
      var front := Insert(order, init, x);
      InsertPermutation(order, init, x);
      CompareAntisymmetric(order, t[|t| - 1], x);
      BelowLast(order, t, front, x);
      SortedSnoc(order, front, t[|t| - 1]);
    }
  }

  /** The stable sort puts the items in comparator order. */
  lemma {:induction false} SortBySorted(order: Order, s: seq<Item>)
    ensures Sorted(order, SortBy(order, s))
  {
    if s != [] {
      SortBySorted(order, s[..|s| - 1]);
      InsertSorted(order, SortBy(order, s[..|s| - 1]), s[|s| - 1]);
    }
  }

  lemma TiesSnoc(order: Order, e: Item, s: seq<Item>, y: Item)
    ensures Ties(order, e, s + [y]) == Ties(order, e, s) + Ties(order, e, [y])
  {
    assert (s + [y])[..|s|] == s;
    assert [y][..0] == [];
  }

  /** Two sequences one of which is empty commute under concatenation. */
  lemma SwapEmpty<T>(a: seq<T>, b: seq<T>, c: seq<T>)
    requires a == [] || b == []
    ensures c + a + b == c + b + a
  {
  }

  lemma {:induction false} InsertTies(order: Order, e: Item, t: seq<Item>, x: Item)
    ensures Ties(order, e, Insert(order, t, x)) == Ties(order, e, t + [x])
  {
    if t != [] && Compare(order, t[|t| - 1], x) > 0 {
      var init, last := t[..|t| - 1], t[|t| - 1];
      var front := Insert(order, init, x);
      assert Insert(order, t, x) == front + [last];
      assert t == init + [last];
      var ti, tx, tl := Ties(order, e, init), Ties(order, e, [x]), Ties(order, e, [last]);
      InsertTies(order, e, init, x);
      TiesSnoc(order, e, init, x);
      TiesSnoc(order, e, front, last);
      assert Ties(order, e, Insert(order, t, x)) == ti + tx + tl;
      TiesSnoc(order, e, init, last);
      TiesSnoc(order, e, t, x);
      assert Ties(order, e, t + [x]) == ti + tl + tx;
      // `x` and `last` cannot both tie with `e`, since `last` is put after `x`.
      if Compare(order, x, e) == 0 && Compare(order, last, e) == 0 {
        TieTransitive(order, last, x, e);
      }
      assert tx == [] || tl == [];
      SwapEmpty(tx, tl, ti);
    }
  }

  /** The sort is stable: items that tie keep their relative order. */
  lemma {:induction false} SortByStable(order: Order, s: seq<Item>)
    ensures Stable(order, s, SortBy(order, s))
  {
    if s != [] {
      var init := s[..|s| - 1];
      var last := s[|s| - 1];
      SortByStable(order, init);
      forall e ensures Ties(order, e, SortBy(order, s)) == Ties(order, e, s) {
        InsertTies(order, e, SortBy(order, init), last);
        TiesAppend(order, e, SortBy(order, init), [last]);
        TiesAppend(order, e, init, [last]);
        assert s == init + [last];
      }
    }
  }

  /** Sorting an already sorted list changes nothing: the list is a sorted,
      stable permutation of itself, and the stable sort has only one result. */
  lemma SortBySortedIdentity(order: Order, s: seq<Item>)
    requires Sorted(order, s)
    ensures SortBy(order, s) == s
  {
    SortByUnique(order, s, s);
  }

  /** Applying the sort twice equals applying it once. */
  lemma SortByIdempotent(order: Order, s: seq<Item>)
    ensures SortBy(order, SortBy(order, s)) == SortBy(order, s)
  {
    SortBySorted(order, s);
    SortBySortedIdentity(order, SortBy(order, s));
  }

  lemma {:induction false} TiesLast(order: Order, e: Item, s: seq<Item>)
    requires s != [] && Compare(order, s[|s| - 1], e) == 0
    ensures Ties(order, e, s) != [] && Ties(order, e, s)[|Ties(order, e, s)| - 1] == s[|s| - 1]
  {
  }

  /** The last element of a sorted list is not before any of its elements. */
  lemma SortedLastIsMax(order: Order, r: seq<Item>, x: Item)
    requires Sorted(order, r) && x in r
    ensures Compare(order, x, r[|r| - 1]) <= 0
  {
    var i :| 0 <= i < |r| && r[i] == x;
    if i == |r| - 1 {
      CompareReflexive(order, x);
    }
  }

  lemma PermutationFacts<T>(r: seq<T>, q: seq<T>)
    requires multiset(r) == multiset(q)
    ensures |r| == |q|
    ensures forall x :: x in q ==> x in r
    ensures forall x :: x in r ==> x in q
  {
    assert |r| == |multiset(r)|;
    forall x | x in q ensures x in r {
      assert x in multiset(q);
    }
    forall x | x in r ensures x in q {
      assert x in multiset(r);
    }
  }

  /** Sorted, tie-wise equal permutations end with the same item. */
  lemma SameLast(order: Order, r: seq<Item>, q: seq<Item>)
    requires r != [] && multiset(r) == multiset(q)
    requires Sorted(order, r) && Sorted(order, q)
    requires Stable(order, q, r)
    ensures |q| == |r| && q[|r| - 1] == r[|r| - 1]
  {
    PermutationFacts(r, q);
    var m, m' := r[|r| - 1], q[|q| - 1];
    // m' occurs in r, so m' is not after m; symmetrically m is not after m'.
    SortedLastIsMax(order, r, m');
    SortedLastIsMax(order, q, m);
    CompareAntisymmetric(order, m, m');
    CompareReflexive(order, m);
    // The last item tying with m is m in r and m' in q.
    TiesLast(order, m, r);
    TiesLast(order, m, q);
    assert Ties(order, m, r) == Ties(order, m, q);
  }

  /** Dropping a common last item keeps the lists tie-wise equal. */
  lemma TiesDropLast(order: Order, r: seq<Item>, q: seq<Item>)
    requires r != [] && |q| == |r| && q[|r| - 1] == r[|r| - 1]
    requires Stable(order, q, r)
    ensures Stable(order, q[..|q| - 1], r[..|r| - 1])
  {
    var n, m := |r|, r[|r| - 1];
    var r0, q0 := r[..n - 1], q[..n - 1];
    forall e ensures Ties(order, e, r0) == Ties(order, e, q0) {
      var tr, tq := Ties(order, e, r), Ties(order, e, q);
      var k := |tr| - (if Compare(order, m, e) == 0 then 1 else 0);
      assert Ties(order, e, r0) == tr[..k];
      assert Ties(order, e, q0) == tq[..k];
    }
  }

  /** The multiset of a non-empty list splits into its front and its last element. */
  lemma MultisetSnoc<T>(s: seq<T>)
    requires s != []
    ensures multiset(s) == multiset(s[..|s| - 1]) + multiset{s[|s| - 1]}
  {
    assert s == s[..|s| - 1] + [s[|s| - 1]];
  }

  lemma PermutationDropLast<T>(r: seq<T>, q: seq<T>)
    requires r != [] && |q| == |r| && q[|r| - 1] == r[|r| - 1]
    requires multiset(r) == multiset(q)
    ensures multiset(r[..|r| - 1]) == multiset(q[..|q| - 1])
  {
    var n := |r|;
    MultisetSnoc(r);
    MultisetSnoc(q);
    assert multiset(r[..n - 1]) == multiset(r) - multiset{r[n - 1]};
  }

  lemma SameInitAndLast<T>(r: seq<T>, q: seq<T>)
    requires r != [] && |q| == |r| && q[|r| - 1] == r[|r| - 1]
    requires r[..|r| - 1] == q[..|q| - 1]
    ensures r == q
  {
    assert r == r[..|r| - 1] + [r[|r| - 1]] && q == q[..|q| - 1] + [q[|q| - 1]];
  }

  lemma SortedInit(order: Order, r: seq<Item>)
    requires r != [] && Sorted(order, r)
    ensures Sorted(order, r[..|r| - 1])
  {
  }

  /** Two sorted lists that are permutations of each other and tie-wise
      equal are equal: a stable sort has exactly one possible result. */
  lemma {:induction false} SortedStableUnique(order: Order, r: seq<Item>, q: seq<Item>)
    requires multiset(r) == multiset(q)
    requires Sorted(order, r) && Sorted(order, q)
    requires Stable(order, q, r)
    ensures r == q
  {
    if r == [] {
      assert |q| == |multiset(q)| == 0;
    } else {
      SameLast(order, r, q);
      TiesDropLast(order, r, q);
      var n := |r|;
      PermutationDropLast(r, q);
      SortedInit(order, r);
      SortedInit(order, q);
      SortedStableUnique(order, r[..n - 1], q[..n - 1]);
      SameInitAndLast(r, q);
    }
  }

  /** Any sorted, stable permutation of `s` is the one `SortBy` gives. */
  lemma SortByUnique(order: Order, s: seq<Item>, r: seq<Item>)
    requires multiset(r) == multiset(s) && Sorted(order, r) && Stable(order, s, r)
    ensures r == SortBy(order, s)
  {
    SortBySorted(order, s);
    SortByStable(order, s);
    SortByPermutation(order, s);
    SortedStableUnique(order, r, SortBy(order, s));
  }

  // ---------------------------------------------------------------------
  // What each criterion yields

  /** Sorting by input order leaves ids non-decreasing. */
  lemma SortByInputIds(s: seq<Item>)
    ensures forall i, j :: 0 <= i < j < |s| ==> SortBy(ByInput, s)[i].id <= SortBy(ByInput, s)[j].id
  {
    SortBySorted(ByInput, s);
  }

  /** Sorting by description leaves descriptions in lexicographic order. */
  lemma SortByDescriptionOrdered(s: seq<Item>)
    ensures forall i, j :: 0 <= i < j < |s| ==>
              CompareText(SortBy(ByDescription, s)[i].description, SortBy(ByDescription, s)[j].description) <= 0
  {
    SortBySorted(ByDescription, s);
  }

  lemma {:induction false} TiesPacked(e: Item, s: seq<Item>)
    ensures Ties(ByPacked, e, s) == if e.packed then PackedItems(s) else UnpackedItems(s)
  {
    if s != [] {
      var init, last := s[..|s| - 1], s[|s| - 1];
      TiesPacked(e, init);
      assert s == init + [last];
      PackedAppend(init, [last]);
    }
  }

  lemma {:induction false} PackedAppend(a: seq<Item>, b: seq<Item>)
    ensures PackedItems(a + b) == PackedItems(a) + PackedItems(b)
    ensures UnpackedItems(a + b) == UnpackedItems(a) + UnpackedItems(b)
  {
    if a == [] {
      assert a + b == b;
    } else {
      var ab, tail := a + b, a[1..];
      assert ab != [] && ab[0] == a[0] && ab[1..] == tail + b;
      PackedAppend(tail, b);
      var p := if a[0].packed then [a[0]] else [];
      var u := if a[0].packed then [] else [a[0]];
      assert PackedItems(ab) == p + PackedItems(tail + b);
      assert PackedItems(a) == p + PackedItems(tail);
      assert UnpackedItems(ab) == u + UnpackedItems(tail + b);
      assert UnpackedItems(a) == u + UnpackedItems(tail);
    }
  }

  /** Sorting by packed status is the stable partition: the unpacked items in
      list order, then the packed ones in list order. */
  lemma SortByPackedPartition(s: seq<Item>)
    ensures SortBy(ByPacked, s) == UnpackedItems(s) + PackedItems(s)
  {
    PartitionPermutation(s);
    PartitionSorted(s);
    PartitionStable(s);
    SortByUnique(ByPacked, s, UnpackedItems(s) + PackedItems(s));
  }

  lemma PartitionSorted(s: seq<Item>)
    ensures Sorted(ByPacked, UnpackedItems(s) + PackedItems(s))
  {
    var u, p := UnpackedItems(s), PackedItems(s);
    var r := u + p;
    PackedMembers(s);
    forall i, j | 0 <= i < j < |r| ensures Compare(ByPacked, r[i], r[j]) <= 0 {
      if i < |u| {
        assert r[i] in u;
      } else {
        assert r[j] == p[j - |u|];
        assert r[j] in p;
      }
    }
  }

  lemma PartitionStable(s: seq<Item>)
    ensures Stable(ByPacked, s, UnpackedItems(s) + PackedItems(s))
  {
    var u, p := UnpackedItems(s), PackedItems(s);
    PackedAppend(u, p);
    PartitionParts(s);
    forall e ensures Ties(ByPacked, e, u + p) == Ties(ByPacked, e, s) {
      TiesPacked(e, s);
      TiesPacked(e, u + p);
    }
  }

  lemma {:induction false} PartitionPermutation(s: seq<Item>)
    ensures multiset(UnpackedItems(s) + PackedItems(s)) == multiset(s)
  {
    if s != [] {
      var t := s[1..];
      PartitionPermutation(t);
      assert s == [s[0]] + t;
      assert multiset(s) == multiset{s[0]} + multiset(t);
      var u, p := UnpackedItems(t), PackedItems(t);
      if s[0].packed {
        assert UnpackedItems(s) == u && PackedItems(s) == [s[0]] + p;
      } else {
        assert UnpackedItems(s) == [s[0]] + u && PackedItems(s) == p;
      }
    }
  }

  lemma {:induction false} PartitionParts(s: seq<Item>)
    ensures PackedItems(PackedItems(s)) == PackedItems(s) && UnpackedItems(PackedItems(s)) == []
    ensures UnpackedItems(UnpackedItems(s)) == UnpackedItems(s) && PackedItems(UnpackedItems(s)) == []
  {
    if s != [] {
      PartitionParts(s[1..]);
      var h := if s[0].packed then [s[0]] else [];
      var u := if s[0].packed then [] else [s[0]];
      PackedAppend(h, PackedItems(s[1..]));
      PackedAppend(u, UnpackedItems(s[1..]));
      assert [s[0]][1..] == [];
    }
  }

  // ---------------------------------------------------------------------
  // orderInputs

  /** The list after choosing `selectedValue` in the sort select. */
  function Reorder(items: seq<Item>, selectedValue: string): (r: seq<Item>)
    ensures multiset(r) == multiset(items)
    ensures OrderOf(selectedValue).None? ==> r == items
    ensures OrderOf(selectedValue).Some? ==> Sorted(OrderOf(selectedValue).value, r)
    ensures OrderOf(selectedValue).Some? ==> Stable(OrderOf(selectedValue).value, items, r)
  {
    match OrderOf(selectedValue)
    case Some(order) =>
      SortBySorted(order, items);
      SortByPermutation(order, items);
      SortByStable(order, items);
      SortBy(order, items)
    case None => items
  }

  /** Choosing the same value of the sort select twice is the same as choosing it once. */
  lemma ReorderIdempotent(items: seq<Item>, selectedValue: string)
    ensures Reorder(Reorder(items, selectedValue), selectedValue) == Reorder(items, selectedValue)
  {
    if OrderOf(selectedValue).Some? {
      SortByIdempotent(OrderOf(selectedValue).value, items);
    }
  }

  /** Insertion puts `x` right after the last element of `t` that the
      comparator does not put after `x`, so at position `j` when every element
      from `j` on is put after `x` and the one before is not. */
  lemma {:induction false} InsertAt(order: Order, t: seq<Item>, x: Item, j: nat)
    requires j <= |t| && (j == 0 || Compare(order, t[j - 1], x) <= 0)
    requires forall k :: j <= k < |t| ==> Compare(order, t[k], x) > 0
    ensures Insert(order, t, x) == t[..j] + [x] + t[j..]
    decreases |t|
  {
    if j < |t| {
      var init := t[..|t| - 1];
      InsertAt(order, init, x, j);
      assert init[..j] == t[..j] && init[j..] + [t[|t| - 1]] == t[j..];
    }
  }

  /** A list holding `t[..j]`, then `x`, then `t[j..]` starts with `t[..j] + [x] + t[j..]`. */
  lemma Shifted(s: seq<Item>, t: seq<Item>, x: Item, j: nat)
    requires j <= |t| < |s| && s[j] == x
    requires forall k :: 0 <= k < j ==> s[k] == t[k]
    requires forall k :: j < k <= |t| ==> s[k] == t[k - 1]
    ensures s[..|t| + 1] == t[..j] + [x] + t[j..]
  {
    var inserted := t[..j] + [x] + t[j..];
    forall k | 0 <= k <= |t| ensures s[k] == inserted[k] {
      if k < j {
        assert inserted[k] == t[k];
      } else if j < k {
        assert inserted[k] == t[k - 1];
      }
    }
  }

  /** A list laid out as `t[..j]`, `x`, `t[j..]`, where `j` is the insertion
      point of `x`, starts with `Insert(order, t, x)`. */
  lemma InsertedPrefix(order: Order, s: seq<Item>, t: seq<Item>, x: Item, j: nat)
    requires j <= |t| < |s| && s[j] == x
    requires forall k :: 0 <= k < j ==> s[k] == t[k]
    requires forall k :: j < k <= |t| ==> s[k] == t[k - 1]
    requires j == 0 || Compare(order, t[j - 1], x) <= 0
    requires forall k :: j <= k < |t| ==> Compare(order, t[k], x) > 0
    ensures s[..|t| + 1] == Insert(order, t, x)
  {
    InsertAt(order, t, x, j);
    Shifted(s, t, x, j);
  }

  /** Moves `a[i]` left past the elements of the prefix `a[..i]` that the
      comparator puts after it: one step of insertion sort. */
  method InsertInPlace(a: array<Item>, i: nat, order: Order)
    requires i < a.Length
    modifies a
    ensures a[..i + 1] == Insert(order, old(a[..i]), old(a[i]))
    ensures forall k :: i < k < a.Length ==> a[k] == old(a[k])
  {
    var x := a[i];
    ghost var t := a[..i];
    var j := i;
    while j > 0
      invariant 0 <= j <= i
      invariant forall k :: 0 <= k < j ==> a[k] == t[k]
      invariant forall k :: j < k <= i ==> a[k] == t[k - 1]
      invariant forall k :: i < k < a.Length ==> a[k] == old(a[k])
      invariant forall k :: j <= k < i ==> Compare(order, t[k], x) > 0
    {
      var y := a[j - 1];
      if Compare(order, y, x) <= 0 {
        break;
      }
      a[j] := y;
      j := j - 1;
    }
    a[j] := x;
    InsertedPrefix(order, a[..], t, x, j);
  }

  /** Sorting one more element of a prefix inserts it into the sorted prefix. */
  lemma SortByStep(order: Order, s: seq<Item>, i: nat)
    requires i < |s|
    ensures SortBy(order, s[..i + 1]) == Insert(order, SortBy(order, s[..i]), s[i])
  {
    assert s[..i + 1][..i] == s[..i];
  }

  /** Sorts `a` in place, stably, as `Array.prototype.sort` with the comparator of `order`. */
  method SortInPlace(a: array<Item>, order: Order)
    modifies a
    ensures a[..] == SortBy(order, old(a[..]))
  {
    ghost var s := a[..];
    var i := 0;
    while i < a.Length
      invariant 0 <= i <= a.Length
      invariant a[..i] == SortBy(order, s[..i])
      invariant forall k :: i <= k < a.Length ==> a[k] == s[k]
    {
      SortByStep(order, s, i);
      InsertInPlace(a, i, order);
      i := i + 1;
    }
    assert a[..] == a[..a.Length] && s == s[..a.Length];
  }
}
