/** The packing list's items and the pure list operations of the `App`
    component in src/App.js: toggling the packed flag, removing by id,
    building and appending a submitted item, and the statistics footer. */
module Items {

  datatype Option<T> = None | Some(value: T)

  /** One entry of the packing list. */
  datatype Item = Item(id: int, description: string, quantity: int, packed: bool)

  /** The two seed items the list starts with. */
  const InitialItems: seq<Item> := [
    Item(1, "Passports", 2, false),
    Item(2, "Socks", 12, false)
  ]

  /** Some item of `items` carries the id `id`. */
  predicate HasId(items: seq<Item>, id: int) {
    exists i :: 0 <= i < |items| && items[i].id == id
  }

  /** No two positions of `items` carry the same id. */
  predicate DistinctIds(items: seq<Item>) {
    forall i, j :: 0 <= i < j < |items| ==> items[i].id != items[j].id
  }

  lemma HasIdCons(items: seq<Item>, id: int)
    requires items != []
    ensures HasId(items, id) <==> items[0].id == id || HasId(items[1..], id)
  {
    if HasId(items[1..], id) {
      var k :| 0 <= k < |items[1..]| && items[1..][k].id == id;
      assert items[k + 1].id == id;
    }
    if HasId(items, id) && items[0].id != id {
      var k :| 0 <= k < |items| && items[k].id == id;
      assert items[1..][k - 1].id == id;
    }
  }

  /** Number of items whose id is `id`. */
  function CountId(items: seq<Item>, id: int): (n: nat)
    ensures n <= |items|
    ensures n == 0 <==> !HasId(items, id)
  {
    if items == [] then 0
    else
      var rest := CountId(items[1..], id);
      assert forall i :: 0 < i < |items| ==> items[i] == items[1..][i - 1];
      HasIdCons(items, id);
      (if items[0].id == id then 1 else 0) + rest
  }

  // ---------------------------------------------------------------------
  // togglePacked: `items.map(item => item.id === itemId ? {...item, packed: !item.packed} : item)`

  /** Flips `packed` on every item whose id is `id`; other items are kept. */
  function Toggle(items: seq<Item>, id: int): (r: seq<Item>)
    ensures |r| == |items|
    ensures forall i :: 0 <= i < |r| ==>
              && r[i].id == items[i].id
              && r[i].description == items[i].description
              && r[i].quantity == items[i].quantity
    ensures forall i :: 0 <= i < |r| && items[i].id == id ==> r[i].packed == !items[i].packed
    ensures forall i :: 0 <= i < |r| && items[i].id != id ==> r[i] == items[i]
  {
    seq(|items|, i requires 0 <= i < |items| =>
      if items[i].id == id then items[i].(packed := !items[i].packed) else items[i])
  }

  /** Toggling commutes with dropping the first item. */
  lemma ToggleTail(items: seq<Item>, id: int)
    requires items != []
    ensures Toggle(items, id)[1..] == Toggle(items[1..], id)
  {
    var t, u := Toggle(items, id)[1..], Toggle(items[1..], id);
    forall i | 0 <= i < |t| ensures t[i] == u[i] {
      assert t[i] == Toggle(items, id)[i + 1];
    }
  }

  /** Toggling an id nothing carries leaves the list as it was. */
  lemma ToggleAbsent(items: seq<Item>, id: int)
    requires !HasId(items, id)
    ensures Toggle(items, id) == items
  {
  }

  /** Toggling the same id twice restores the list, whether or not the id is present. */
  lemma ToggleTwice(items: seq<Item>, id: int)
    ensures Toggle(Toggle(items, id), id) == items
  {
    var once := Toggle(items, id);
    var twice := Toggle(once, id);
    forall i | 0 <= i < |items| ensures twice[i] == items[i] {
      if items[i].id == id {
        assert twice[i].packed == !once[i].packed == items[i].packed;
      }
    }
  }

  // ---------------------------------------------------------------------
  // clearSelect: `items.filter(item => item.id !== itemId)`

  /** Drops every item whose id is `id`; the survivors keep their order. */
  function Remove(items: seq<Item>, id: int): (r: seq<Item>)
    ensures |r| == |items| - CountId(items, id)
    ensures !HasId(r, id)
  {
    if items == [] then []
    else
      var rest := Remove(items[1..], id);
      if items[0].id == id then rest
      else
        assert forall i :: 0 < i < |[items[0]] + rest| ==> ([items[0]] + rest)[i] == rest[i - 1];
        [items[0]] + rest
  }

  /** The survivors of a removal are exactly the items that do not carry the id. */
  lemma {:induction false} RemoveMembers(items: seq<Item>, id: int)
    ensures forall x :: x in Remove(items, id) <==> x in items && x.id != id
  {
    if items != [] {
      RemoveMembers(items[1..], id);
      assert items == [items[0]] + items[1..];
    }
  }

  /** Removal distributes over concatenation: it keeps the relative order of the survivors. */
  lemma {:induction false} RemoveAppend(a: seq<Item>, b: seq<Item>, id: int)
    ensures Remove(a + b, id) == Remove(a, id) + Remove(b, id)
  {
    if a == [] {
      assert a + b == b;
    } else {
      var ab := a + b;
      assert ab[0] == a[0] && ab[1..] == a[1..] + b;
      RemoveAppend(a[1..], b, id);
      if a[0].id != id {
        assert Remove(ab, id) == [a[0]] + Remove(ab[1..], id);
        assert Remove(a, id) == [a[0]] + Remove(a[1..], id);
      }
    }
  }

  /** Removing an id nothing carries leaves the list as it was. */
  lemma {:induction false} RemoveAbsent(items: seq<Item>, id: int)
    requires !HasId(items, id)
    ensures Remove(items, id) == items
  {
    if items != [] {
      HasIdCons(items, id);
      RemoveAbsent(items[1..], id);
      assert items == [items[0]] + items[1..];
    }
  }

  /** Removing an id shortens the list by exactly one when one item carries it. */
  lemma RemoveUnique(items: seq<Item>, id: int)
    requires DistinctIds(items) && HasId(items, id)
    ensures |Remove(items, id)| == |items| - 1
  {
    CountIdDistinct(items, id);
  }

  /** Dropping the first item keeps ids distinct. */
  lemma DistinctTail(items: seq<Item>)
    requires items != [] && DistinctIds(items)
    ensures DistinctIds(items[1..])
  {
    var tail := items[1..];
    forall i, j | 0 <= i < j < |tail| ensures tail[i].id != tail[j].id {
      assert tail[i] == items[i + 1] && tail[j] == items[j + 1];
    }
  }

  /** With distinct ids, the first item's id occurs nowhere after it. */
  lemma HeadIdFresh(items: seq<Item>)
    requires items != [] && DistinctIds(items)
    ensures forall x :: x in items[1..] ==> x.id != items[0].id
  {
    forall x | x in items[1..] ensures x.id != items[0].id {
      var k :| 0 <= k < |items[1..]| && items[1..][k] == x;
      assert items[k + 1] == x;
    }
  }

  /** An item with a fresh id put in front of a list of distinct ids keeps them distinct. */
  lemma DistinctCons(x: Item, rest: seq<Item>)
    requires DistinctIds(rest)
    requires forall y :: y in rest ==> y.id != x.id
    ensures DistinctIds([x] + rest)
  {
    var r := [x] + rest;
    forall i, j | 0 <= i < j < |r| ensures r[i].id != r[j].id {
      assert r[j] == rest[j - 1];
      if 0 < i {
        assert r[i] == rest[i - 1];
      }
    }
  }

  lemma {:induction false} CountIdDistinct(items: seq<Item>, id: int)
    requires DistinctIds(items) && HasId(items, id)
    ensures CountId(items, id) == 1
  {
    var tail := items[1..];
    DistinctTail(items);
    HasIdCons(items, id);
    if items[0].id != id {
      var k :| 0 <= k < |items| && items[k].id == id;
      assert tail[k - 1].id == id;
      CountIdDistinct(tail, id);
    }
  }

  /** Removal keeps ids distinct. */
  lemma {:induction false} RemoveKeepsDistinct(items: seq<Item>, id: int)
    requires DistinctIds(items)
    ensures DistinctIds(Remove(items, id))
  {
    if items != [] {
      var tail := items[1..];
      DistinctTail(items);
      RemoveKeepsDistinct(tail, id);
      if items[0].id != id {
        var rest := Remove(tail, id);
        assert Remove(items, id) == [items[0]] + rest;
        RemoveMembers(tail, id);
        HeadIdFresh(items);
        DistinctCons(items[0], rest);
      }
    }
  }

  // ---------------------------------------------------------------------
  // Form.handleSubmit and handleAddItem

  /** The item a submission builds for a list of `itemLength` items. */
  function NewItem(itemLength: int, description: string, quantity: int): (item: Item)
    ensures item.id == itemLength + 1 && !item.packed
    ensures item.description == description && item.quantity == quantity
  {
    Item(itemLength + 1, description, quantity, false)
  }

  /** A submission of the add form: `None` when the description is empty
      (the form alerts and nothing changes), otherwise the list with the new
      item appended at the end. */
  function Submit(items: seq<Item>, description: string, quantity: int): (r: Option<seq<Item>>)
    ensures r.None? <==> description == ""
    ensures r.Some? ==>
              && |r.value| == |items| + 1
              && r.value[..|items|] == items
              && r.value[|items|].id == |items| + 1
              && r.value[|items|].description == description
              && r.value[|items|].quantity == quantity
              && !r.value[|items|].packed
  {
    if description == "" then None
    else Some(items + [NewItem(|items|, description, quantity)])
  }

  /** Ids 1, 2, ..., n in list order: what a list built by submissions alone looks like. */
  predicate NumberedInOrder(items: seq<Item>) {
    forall i :: 0 <= i < |items| ==> items[i].id == i + 1
  }

  /** Submissions alone keep the list numbered 1..n in order, so ids stay distinct. */
  lemma SubmitKeepsNumbering(items: seq<Item>, description: string, quantity: int)
    requires NumberedInOrder(items) && description != ""
    ensures NumberedInOrder(Submit(items, description, quantity).value)
    ensures DistinctIds(Submit(items, description, quantity).value)
  {
  }

  /** Removing any item but the last from a list numbered 1..n and then
      submitting gives the new item the id n, which the old last item still
      carries: the id is derived from the length, not from a counter. */
  lemma RemoveThenSubmitDuplicatesId(items: seq<Item>, id: int, description: string, quantity: int)
    requires NumberedInOrder(items) && 1 <= id < |items| && description != ""
    ensures !DistinctIds(Submit(Remove(items, id), description, quantity).value)
  {
    var n := |items|;
    assert DistinctIds(items);
    assert items[id - 1].id == id;
    RemoveUnique(items, id);
    var rest := Remove(items, id);
    var after := Submit(rest, description, quantity).value;
    RemoveMembers(items, id);
    assert items[n - 1] in rest;
    var k :| 0 <= k < |rest| && rest[k] == items[n - 1];
    assert after[k].id == n && after[n - 1].id == n && k < n - 1;
  }

  /** Appending an item whose id no item of the list carries keeps ids distinct. */
  lemma DistinctSnoc(items: seq<Item>, x: Item)
    requires DistinctIds(items)
    requires forall y :: y in items ==> y.id != x.id
    ensures DistinctIds(items + [x])
  {
    var r := items + [x];
    forall i, j | 0 <= i < j < |r| ensures r[i].id != r[j].id {
      assert r[i] == items[i];
      if j < |items| {
        assert r[j] == items[j];
      } else {
        assert r[i] in items;
      }
    }
  }

  /** The converse of `RemoveThenSubmitDuplicatesId`: on a list numbered 1..n,
      removing the last item, or an id no item carries, and then submitting
      keeps ids distinct. */
  lemma RemoveThenSubmitKeepsDistinct(items: seq<Item>, id: int, description: string, quantity: int)
    requires NumberedInOrder(items) && !(1 <= id < |items|) && description != ""
    ensures DistinctIds(Submit(Remove(items, id), description, quantity).value)
  {
    var n := |items|;
    var rest := Remove(items, id);
    var x := NewItem(|rest|, description, quantity);
    assert Submit(rest, description, quantity).value == rest + [x];
    RemoveKeepsDistinct(items, id);
    RemoveMembers(items, id);
    if 0 < n && id == n {
      assert items[n - 1].id == id;
      RemoveUnique(items, id);
      assert x.id == n;
      DistinctSnoc(rest, x);
    } else {
      assert !HasId(items, id);
      RemoveAbsent(items, id);
      forall y | y in rest ensures y.id != x.id {
        var k :| 0 <= k < |items| && items[k] == y;
      }
      DistinctSnoc(rest, x);
    }
  }

  // ---------------------------------------------------------------------
  // Stats

  /** `items.filter(item => item.packed)`. */
  function PackedItems(items: seq<Item>): (r: seq<Item>)
    ensures |r| <= |items|
  {
    if items == [] then []
    else
      (if items[0].packed then [items[0]] else []) + PackedItems(items[1..])
  }

  /** The items not yet packed, in list order. */
  function UnpackedItems(items: seq<Item>): (r: seq<Item>)
    ensures |r| <= |items|
  {
    if items == [] then []
    else
      (if items[0].packed then [] else [items[0]]) + UnpackedItems(items[1..])
  }

  /** The two filters keep exactly the packed, respectively unpacked, items. */
  lemma {:induction false} PackedMembers(items: seq<Item>)
    ensures forall x :: x in PackedItems(items) <==> x in items && x.packed
    ensures forall x :: x in UnpackedItems(items) <==> x in items && !x.packed
  {
    if items != [] {
      PackedMembers(items[1..]);
      assert items == [items[0]] + items[1..];
    }
  }

  /** `packedItems` of the footer. */
  function PackedCount(items: seq<Item>): (n: nat)
    ensures n <= |items|
  {
    |PackedItems(items)|
  }

  /** Every item is packed exactly when the packed count reaches the total. */
  lemma {:induction false} PackedCountFull(items: seq<Item>)
    ensures PackedCount(items) == |items| <==> forall i :: 0 <= i < |items| ==> items[i].packed
  {
    if items != [] {
      PackedCountFull(items[1..]);
      assert forall i :: 0 < i < |items| ==> items[i] == items[1..][i - 1];
    }
  }

  /** No item is packed exactly when the packed count is zero. */
  lemma {:induction false} PackedCountZero(items: seq<Item>)
    ensures PackedCount(items) == 0 <==> forall i :: 0 <= i < |items| ==> !items[i].packed
  {
    if items != [] {
      PackedCountZero(items[1..]);
      assert forall i :: 0 < i < |items| ==> items[i] == items[1..][i - 1];
    }
  }

  /** Toggling the id of one unpacked item (ids distinct) packs one more item. */
  lemma {:induction false} TogglePacksOne(items: seq<Item>, k: nat)
    requires DistinctIds(items) && k < |items| && !items[k].packed
    ensures PackedCount(Toggle(items, items[k].id)) == PackedCount(items) + 1
  {
    var id := items[k].id;
    var tail := items[1..];
    DistinctTail(items);
    ToggleTail(items, id);
    if k == 0 {
      HeadIdFresh(items);
      assert !HasId(tail, id) by {
        forall m | 0 <= m < |tail| ensures tail[m].id != id {
          assert tail[m] in tail;
        }
      }
      ToggleAbsent(tail, id);
    } else {
      assert tail[k - 1] == items[k];
      TogglePacksOne(tail, k - 1);
    }
  }

  /** What the footer under the list shows. */
  datatype Footer =
    | StartAdding                          // the list is empty
    | ReadyToTravel                        // every item is packed
    | Progress(total: nat, packed: nat)    // "<total> items ... you already packed <packed>"

  /** The `Stats` component. */
  function Stats(items: seq<Item>): (f: Footer)
    ensures f.StartAdding? <==> items == []
    ensures f.ReadyToTravel? <==> items != [] && forall i :: 0 <= i < |items| ==> items[i].packed
    ensures f.Progress? ==> f.total == |items| && f.packed == PackedCount(items) && f.packed < f.total
  {
    PackedCountFull(items);
    if |items| == 0 then StartAdding
    else
      var totalItems := |items|;
      var packedItems := PackedCount(items);
      if packedItems == totalItems then ReadyToTravel
      else Progress(totalItems, packedItems)
  }
}
