/** The state holders of src/App.js: the `App` component, whose `items`
    state every handler replaces wholesale through `setItems`, and the `Form`
    component, whose `quantity` and `description` state feed the submission. */
module PackingApp {
  import opened Items
  import opened Ordering

  /** The `App` component: the packing list and its five handlers. */
  class App {
    var items: seq<Item>

    constructor ()
      ensures items == InitialItems
    {
      items := InitialItems;
    }

    /** `togglePacked(itemId)`. */
    method TogglePacked(itemId: int)
      modifies this
      ensures items == Toggle(old(items), itemId)
    {
      var updatedItems := Toggle(items, itemId);
      items := updatedItems;
    }

    /** `clearSelect(itemId)`. */
    method ClearSelect(itemId: int)
      modifies this
      ensures items == Remove(old(items), itemId)
    {
      var updatedItems := Remove(items, itemId);
      items := updatedItems;
    }

    /** `handleAddItem(newItem)`. */
    method HandleAddItem(newItem: Item)
      modifies this
      ensures items == old(items) + [newItem]
    {
      var updatedItems := items + [newItem];
      items := updatedItems;
    }

    /** `orderInputs(selectedValue)`: copies the list into an array, sorts the
        copy in place by the chosen criterion, and installs it. */
    method OrderInputs(selectedValue: string)
      modifies this
      ensures items == Reorder(old(items), selectedValue)
    {
      var current := items;
      var updatedItems := new Item[|current|](i requires 0 <= i < |current| => current[i]);
      assert updatedItems[..] == current;
      match OrderOf(selectedValue) {
        case Some(order) => SortInPlace(updatedItems, order);
        case None =>
      }
      items := updatedItems[..];
    }

    /** `clearList()`. */
    method ClearList()
      modifies this
      ensures items == []
    {
      items := [];
    }
  }

  /** The `Form` component's own state and its submit handler. */
  class Form {
    var quantity: int
    var description: string

    constructor ()
      ensures quantity == 1 && description == ""
    {
      quantity := 1;
      description := "";
    }

    /** `handleQuantityChange`, once the select value has been parsed. */
    method HandleQuantityChange(value: int)
      modifies this
      ensures quantity == value && description == old(description)
    {
      quantity := value;
    }

    /** `handleDescriptionChange`. */
    method HandleDescriptionChange(value: string)
      modifies this
      ensures description == value && quantity == old(quantity)
    {
      description := value;
    }

    /** `handleSubmit`: with an empty description it alerts and changes
        nothing; otherwise it appends the new item to `app`'s list and resets
        the form. */
    method HandleSubmit(app: App) returns (alerted: bool)
      modifies this, app
      ensures alerted <==> old(description) == ""
      ensures alerted ==> app.items == old(app.items) && quantity == old(quantity) && description == old(description)
      ensures !alerted ==> Submit(old(app.items), old(description), old(quantity)) == Some(app.items)
      ensures !alerted ==> quantity == 1 && description == ""
    {
      if description == "" {
        return true;
      }
      var newItem := NewItem(|app.items|, description, quantity);
      app.HandleAddItem(newItem);
      quantity := 1;
      description := "";
      alerted := false;
    }
  }

  /** A trip planned from the seed list: what the handlers' contracts let a caller conclude. */
  method PlanTrip() {
    var app := new App();
    var form := new Form();

    var alerted := form.HandleSubmit(app);
    assert alerted && app.items == InitialItems;

    form.HandleDescriptionChange("Sunscreen");
    alerted := form.HandleSubmit(app);
    assert !alerted && |app.items| == 3 && app.items[2] == Item(3, "Sunscreen", 1, false);

    app.TogglePacked(1);
    assert app.items == [Item(1, "Passports", 2, true), Item(2, "Socks", 12, false), Item(3, "Sunscreen", 1, false)];
    assert PackedItems(app.items) == [app.items[0]] by {
      var l := app.items;
      assert l[1..][1..][1..] == [];
      assert PackedItems(l[1..][1..]) == [];
      assert PackedItems(l[1..]) == [];
    }
    assert Stats(app.items) == Progress(3, 1);

    app.ClearSelect(2);
    assert CountId(app.items, 2) == 0 by {
      assert forall k :: 0 <= k < |app.items| ==> app.items[k].id != 2;
    }
    assert |app.items| == 2;

    app.ClearList();
    assert Stats(app.items) == StartAdding;
  }
}
