/** The `listedItems` entry of the page's local storage and the
    read-modify-write helpers over it. Every mutating call reads the whole
    collection, computes the new one and overwrites the entry. */
module ItemStore {
  import opened Wrappers
  import opened ListedItems

  class LocalStore {
    /** The stored collection; `None` while the key has never been written. */
    var listedItems: Option<seq<Item>>

    /** A fresh origin: nothing has been saved yet. */
    constructor ()
      ensures listedItems == None
    {
      listedItems := None;
    }

    /** What a read sees: the stored collection, or `[]` for a missing key. */
    ghost function Items(): seq<Item>
      reads this
    {
      if listedItems.Some? then listedItems.value else []
    }

    /** `getListedItems`: the stored collection, empty when never written. */
    method GetListedItems() returns (items: seq<Item>)
      ensures listedItems == None ==> items == []
      ensures listedItems.Some? ==> items == listedItems.value
    {
      match listedItems {
        case None => items := [];
        case Some(stored) => items := stored;
      }
    }

    /** `saveListedItems`: overwrite the entry with the whole collection. */
    method SaveListedItems(items: seq<Item>)
      modifies this
      ensures listedItems == Some(items)
    {
      listedItems := Some(items);
    }

    /** `addListedItem`: the item goes at the end; every earlier item keeps
        its value and position. */
    method AddListedItem(item: Item)
      modifies this
      ensures listedItems == Some(Apply(old(Items()), Add(item)))
      ensures |Items()| == |old(Items())| + 1
      ensures Items()[..|old(Items())|] == old(Items()) && Items()[|old(Items())|] == item
    {
      var items := GetListedItems();
      items := items + [item];
      SaveListedItems(items);
    }

    /** `updateListedItemById`: each item with the id gets the fields merged
        over it; the collection is rewritten even when nothing matched. */
    method UpdateListedItemById(id: Value, fields: Item)
      modifies this
      ensures listedItems == Some(Apply(old(Items()), Update(id, fields)))
      ensures |Items()| == |old(Items())|
      ensures (forall i :: 0 <= i < |old(Items())| ==> !HasId(old(Items())[i], id)) ==>
                Items() == old(Items())
    {
      var items := GetListedItems();
      var newItems := UpdateById(items, id, fields);
      if forall i :: 0 <= i < |items| ==> !HasId(items[i], id) {
        UpdateWithoutMatchIsIdentity(items, id, fields);
      }
      SaveListedItems(newItems);
    }

    /** `deleteListedItemById`: every item with the id is dropped, the rest
        keep their order; the collection is rewritten even when nothing matched. */
    method DeleteListedItemById(id: Value)
      modifies this
      ensures listedItems == Some(Apply(old(Items()), Delete(id)))
      ensures forall j :: 0 <= j < |Items()| ==> !HasId(Items()[j], id)
      ensures (forall i :: 0 <= i < |old(Items())| ==> !HasId(old(Items())[i], id)) ==>
                Items() == old(Items())
    {
      var items := GetListedItems();
      var newItems := DeleteById(items, id);
      DeleteRemovesAll(items, id);
      if forall i :: 0 <= i < |items| ==> !HasId(items[i], id) {
        DeleteWithoutMatchIsIdentity(items, id);
      }
      SaveListedItems(newItems);
    }
  }

  /** A store never written reads as empty; the first add makes it hold
      exactly that item. */
  method FirstAddOnFreshStore(item: Item) returns (before: seq<Item>, after: seq<Item>)
    ensures before == [] && after == [item]
  {
    var store := new LocalStore();
    before := store.GetListedItems();
    store.AddListedItem(item);
    after := store.GetListedItems();
  }
}
