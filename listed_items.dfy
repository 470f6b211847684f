/** The listed-item records kept in local storage and the pure per-item
    transforms behind `updateListedItemById` (a `map` with a spread merge)
    and `deleteListedItemById` (a `filter`). */
module ListedItems {

  /** A value as it comes back from `JSON.parse`. Numbers are modelled as
      reals: JSON cannot hold NaN, so strict equality on them is equality. */
  datatype Value =
    | Null
    | Bool(b: bool)
    | Num(x: real)
    | Str(s: string)
    | Arr(elems: seq<Value>)
    | Obj(fields: map<string, Value>)
  {
    /** Primitives compare by value under `===`; arrays and objects by reference. */
    predicate IsPrimitive() {
      !Arr? && !Obj?
    }
  }

  /** One listed item: a plain object, field name to value. */
  type Item = map<string, Value>

  const IdKey: string := "id"

  /** `it.id === id`. Every read parses the stored text afresh, so an array or
      object found in an item is a new reference and never strictly equal to
      the caller's argument: only a primitive id can match. An item without
      an `id` field has `it.id === undefined`, which no JSON value equals. */
  predicate HasId(it: Item, id: Value) {
    IdKey in it && id.IsPrimitive() && it[IdKey] == id
  }

  /** A record matches only through an `id` field equal to the target; a
      record without one never matches, nor does an array or object target. */
  lemma HasIdIsStrictEquality(it: Item, id: Value)
    ensures HasId(it, id) ==> IdKey in it && it[IdKey] == id
    ensures IdKey !in it ==> !HasId(it, id)
    ensures id.Arr? || id.Obj? ==> !HasId(it, id)
  {
  }

  /** `{ ...it, ...fields }`: every field of both, the later spread winning. */
  function Merge(it: Item, fields: Item): (r: Item)
    ensures r.Keys == it.Keys + fields.Keys
    ensures forall k :: k in fields ==> r[k] == fields[k]
    ensures forall k :: k in it && k !in fields ==> r[k] == it[k]
  {
    it + fields
  }

  /** The update's per-item map: each record with the id becomes the merge
      of the fields over it, every other record passes through as it is. */
  function UpdateById(items: seq<Item>, id: Value, fields: Item): (r: seq<Item>)
    ensures |r| == |items|
  {
    if items == [] then []
    else [if HasId(items[0], id) then Merge(items[0], fields) else items[0]]
         + UpdateById(items[1..], id, fields)
  }

  /** The delete's filter: the records without the id, in their order. */
  function DeleteById(items: seq<Item>, id: Value): (r: seq<Item>)
    ensures |r| <= |items|
  {
    if items == [] then []
    else if HasId(items[0], id) then DeleteById(items[1..], id)
    else [items[0]] + DeleteById(items[1..], id)
  }

  // ---------------------------------------------------------------------
  // Update by id

  /** Position by position: a matching item becomes the merge, any other
      item is passed through untouched; length and order are kept. */
  lemma {:induction false} UpdateAt(items: seq<Item>, id: Value, fields: Item, k: nat)
    requires k < |items|
    ensures |UpdateById(items, id, fields)| == |items|
    ensures HasId(items[k], id) ==> UpdateById(items, id, fields)[k] == Merge(items[k], fields)
    ensures !HasId(items[k], id) ==> UpdateById(items, id, fields)[k] == items[k]
  {
    if k > 0 {
      UpdateAt(items[1..], id, fields, k - 1);
    }
  }

  /** For a matching item, the fields given take their new values and every
      other field keeps its old one; no field is lost. */
  lemma UpdateMergesFields(items: seq<Item>, id: Value, fields: Item, k: nat, key: string)
    requires k < |items| && HasId(items[k], id)
    ensures UpdateById(items, id, fields)[k].Keys == items[k].Keys + fields.Keys
    ensures key in fields ==> UpdateById(items, id, fields)[k][key] == fields[key]
    ensures key in items[k] && key !in fields ==>
              UpdateById(items, id, fields)[k][key] == items[k][key]
  {
    UpdateAt(items, id, fields, k);
  }

  /** When no item has the id, the update gives back the same sequence. */
  lemma {:induction false} UpdateWithoutMatchIsIdentity(items: seq<Item>, id: Value, fields: Item)
    requires forall i :: 0 <= i < |items| ==> !HasId(items[i], id)
    ensures UpdateById(items, id, fields) == items
  {
    if items != [] {
      UpdateWithoutMatchIsIdentity(items[1..], id, fields);
    }
  }

  /** Updating twice with the same id and fields is the same as once, even
      when the fields rewrite the `id` itself. */
  lemma {:induction false} UpdateIdempotent(items: seq<Item>, id: Value, fields: Item)
    ensures UpdateById(UpdateById(items, id, fields), id, fields) == UpdateById(items, id, fields)
  {
    if items != [] {
      var once := UpdateById(items, id, fields);
      assert once[1..] == UpdateById(items[1..], id, fields);
      UpdateIdempotent(items[1..], id, fields);
      if HasId(items[0], id) && HasId(once[0], id) {
        assert Merge(Merge(items[0], fields), fields) == Merge(items[0], fields);
      }
    }
  }

  /** The update works item by item, so it distributes over concatenation. */
  lemma {:induction false} UpdateAppend(a: seq<Item>, b: seq<Item>, id: Value, fields: Item)
    ensures UpdateById(a + b, id, fields) == UpdateById(a, id, fields) + UpdateById(b, id, fields)
  {
    if a == [] {
      assert a + b == b;
    } else {
      assert (a + b)[1..] == a[1..] + b;
      UpdateAppend(a[1..], b, id, fields);
    }
  }

  // ---------------------------------------------------------------------
  // Delete by id

  /** No item left after the delete has the id. */
  lemma {:induction false} DeleteRemovesAll(items: seq<Item>, id: Value)
    ensures forall j :: 0 <= j < |DeleteById(items, id)| ==> !HasId(DeleteById(items, id)[j], id)
  {
    if items != [] {
      DeleteRemovesAll(items[1..], id);
    }
  }

  /** Ascending, the original position of every item the delete keeps. */
  function KeptPositions(items: seq<Item>, id: Value): (r: seq<nat>)
    ensures |r| == |DeleteById(items, id)|
  {
    if items == [] then []
    else if HasId(items[0], id) then Shifted(KeptPositions(items[1..], id))
    else [0] + Shifted(KeptPositions(items[1..], id))
  }

  /** Every position moved one place to the right. */
  function Shifted(positions: seq<nat>): (r: seq<nat>)
    ensures |r| == |positions|
    ensures forall j :: 0 <= j < |r| ==> r[j] == positions[j] + 1
  {
    seq(|positions|, j requires 0 <= j < |positions| => positions[j] + 1)
  }

  /** The j-th item after the delete is the item at the j-th kept position. */
  lemma {:induction false} KeptPositionsSelect(items: seq<Item>, id: Value, j: nat)
    requires j < |DeleteById(items, id)|
    ensures KeptPositions(items, id)[j] < |items|
    ensures DeleteById(items, id)[j] == items[KeptPositions(items, id)[j]]
  {
    var rest := KeptPositions(items[1..], id);
    if HasId(items[0], id) {
      KeptPositionsSelect(items[1..], id, j);
      assert items[1..][rest[j]] == items[rest[j] + 1];
    } else if j > 0 {
      KeptPositionsSelect(items[1..], id, j - 1);
      assert items[1..][rest[j - 1]] == items[rest[j - 1] + 1];
    }
  }

  /** The kept positions are strictly ascending. */
  lemma {:induction false} KeptPositionsAscending(items: seq<Item>, id: Value, j: nat, j': nat)
    requires j < j' < |KeptPositions(items, id)|
    ensures KeptPositions(items, id)[j] < KeptPositions(items, id)[j']
  {
    if HasId(items[0], id) {
      KeptPositionsAscending(items[1..], id, j, j');
    } else if j > 0 {
      KeptPositionsAscending(items[1..], id, j - 1, j' - 1);
    }
  }

  /** Every position whose item lacks the id is kept. */
  lemma {:induction false} KeptPositionsComplete(items: seq<Item>, id: Value, i: nat)
    requires i < |items| && !HasId(items[i], id)
    ensures i in KeptPositions(items, id)
  {
    if i > 0 {
      var rest := KeptPositions(items[1..], id);
      assert items[1..][i - 1] == items[i];
      KeptPositionsComplete(items[1..], id, i - 1);
      var j :| 0 <= j < |rest| && rest[j] == i - 1;
      var shifted := Shifted(rest);
      assert shifted[j] == i;
      assert i in shifted;
    }
  }

  /** The delete keeps exactly the items without the id, in their original
      relative order: `idx` lists, ascending, the original position of each
      kept item, and every position whose item lacks the id is listed. */
  lemma DeleteKeepsOthersInOrder(items: seq<Item>, id: Value) returns (idx: seq<nat>)
    ensures |idx| == |DeleteById(items, id)|
    ensures forall j :: 0 <= j < |idx| ==> idx[j] < |items| && DeleteById(items, id)[j] == items[idx[j]]
    ensures forall j, j' :: 0 <= j < j' < |idx| ==> idx[j] < idx[j']
    ensures forall i :: 0 <= i < |items| && !HasId(items[i], id) ==> i in idx
  {
    idx := KeptPositions(items, id);
    forall j | 0 <= j < |idx|
      ensures idx[j] < |items| && DeleteById(items, id)[j] == items[idx[j]]
    {
      KeptPositionsSelect(items, id, j);
    }
    forall j, j' | 0 <= j < j' < |idx|
      ensures idx[j] < idx[j']
    {
      KeptPositionsAscending(items, id, j, j');
    }
    forall i | 0 <= i < |items| && !HasId(items[i], id)
      ensures i in idx
    {
      KeptPositionsComplete(items, id, i);
    }
  }

  /** Counted item by item: an item with the id is gone, every other item
      occurs exactly as often as before. */
  lemma {:induction false} DeleteMultiset(items: seq<Item>, id: Value, x: Item)
    ensures multiset(DeleteById(items, id))[x] == if HasId(x, id) then 0 else multiset(items)[x]
  {
    if items != [] {
      assert items == [items[0]] + items[1..];
      DeleteMultiset(items[1..], id, x);
    }
  }

  /** When no item has the id, the delete gives back the same sequence. */
  lemma {:induction false} DeleteWithoutMatchIsIdentity(items: seq<Item>, id: Value)
    requires forall i :: 0 <= i < |items| ==> !HasId(items[i], id)
    ensures DeleteById(items, id) == items
  {
    if items != [] {
      DeleteWithoutMatchIsIdentity(items[1..], id);
    }
  }

  /** Deleting the same id twice is the same as deleting it once. */
  lemma DeleteIdempotent(items: seq<Item>, id: Value)
    ensures DeleteById(DeleteById(items, id), id) == DeleteById(items, id)
  {
    DeleteRemovesAll(items, id);
    DeleteWithoutMatchIsIdentity(DeleteById(items, id), id);
  }

  /** The delete works item by item, so it distributes over concatenation. */
  lemma {:induction false} DeleteAppend(a: seq<Item>, b: seq<Item>, id: Value)
    ensures DeleteById(a + b, id) == DeleteById(a, id) + DeleteById(b, id)
  {
    if a == [] {
      assert a + b == b;
    } else {
      assert (a + b)[1..] == a[1..] + b;
      DeleteAppend(a[1..], b, id);
    }
  }

  /** An update that does not change the `id` field to another value does
      not change which items a later delete of that id removes. */
  lemma {:induction false} DeleteAfterUpdate(items: seq<Item>, id: Value, fields: Item)
    requires IdKey in fields ==> fields[IdKey] == id
    ensures DeleteById(UpdateById(items, id, fields), id) == DeleteById(items, id)
  {
    if items != [] {
      var once := UpdateById(items, id, fields);
      assert once[1..] == UpdateById(items[1..], id, fields);
      DeleteAfterUpdate(items[1..], id, fields);
    }
  }

  // ---------------------------------------------------------------------
  // Identifier uniqueness: a property callers may keep, not one the store enforces

  /** No two items carry the same `id` value. */
  ghost predicate UniqueIds(items: seq<Item>) {
    forall i, j :: 0 <= i < j < |items| && IdKey in items[i] && IdKey in items[j] ==>
      items[i][IdKey] != items[j][IdKey]
  }

  /** The id `item` carries is not carried by any item of `items` yet. */
  ghost predicate FreshId(items: seq<Item>, item: Item) {
    IdKey in item ==> forall i :: 0 <= i < |items| && IdKey in items[i] ==> items[i][IdKey] != item[IdKey]
  }

  /** Appending an item whose id is new keeps ids unique. */
  lemma AddFreshKeepsIdsUnique(items: seq<Item>, item: Item)
    requires UniqueIds(items) && FreshId(items, item)
    ensures UniqueIds(items + [item])
  {
    var r := items + [item];
    forall i, j | 0 <= i < j < |r| && IdKey in r[i] && IdKey in r[j]
      ensures r[i][IdKey] != r[j][IdKey]
    {
      if j < |items| {
        assert r[i] == items[i] && r[j] == items[j];
      } else {
        assert r[i] == items[i] && r[j] == item;
      }
    }
  }

  /** The add never looks at existing ids: appending a copy of an item
      breaks uniqueness. */
  lemma AddMayDuplicateId(item: Item)
    requires IdKey in item
    ensures UniqueIds([item]) && !UniqueIds([item] + [item])
  {
    var r := [item] + [item];
    assert r[0] == item && r[1] == item;
  }

  /** Deleting keeps ids unique: the result is a selection of the items. */
  lemma DeleteKeepsIdsUnique(items: seq<Item>, id: Value)
    requires UniqueIds(items)
    ensures UniqueIds(DeleteById(items, id))
  {
    var r := DeleteById(items, id);
    var idx := DeleteKeepsOthersInOrder(items, id);
    forall j, j' | 0 <= j < j' < |r| && IdKey in r[j] && IdKey in r[j']
      ensures r[j][IdKey] != r[j'][IdKey]
    {
      assert r[j] == items[idx[j]] && r[j'] == items[idx[j']];
    }
  }

  /** An update whose fields do not rewrite `id` to a different value keeps
      ids unique: each item keeps its `id` field as it was. */
  lemma UpdateKeepsIdsUnique(items: seq<Item>, id: Value, fields: Item)
    requires UniqueIds(items)
    requires IdKey in fields ==> fields[IdKey] == id
    ensures UniqueIds(UpdateById(items, id, fields))
  {
    var r := UpdateById(items, id, fields);
    forall k | 0 <= k < |items|
      ensures (IdKey in r[k] <==> IdKey in items[k])
      ensures IdKey in items[k] ==> r[k][IdKey] == items[k][IdKey]
    {
      UpdateAt(items, id, fields, k);
    }
  }

  /** The update may rewrite `id` itself, so it can create a duplicate. */
  lemma UpdateMayDuplicateId()
    ensures var items := [map[IdKey := Num(1.0)], map[IdKey := Num(2.0)]];
            UniqueIds(items) && !UniqueIds(UpdateById(items, Num(1.0), map[IdKey := Num(2.0)]))
  {
    var items := [map[IdKey := Num(1.0)], map[IdKey := Num(2.0)]];
    var fields := map[IdKey := Num(2.0)];
    UpdateAt(items, Num(1.0), fields, 0);
    UpdateAt(items, Num(1.0), fields, 1);
    var r := UpdateById(items, Num(1.0), fields);
    assert r[0][IdKey] == Num(2.0) && r[1][IdKey] == Num(2.0);
  }

  // ---------------------------------------------------------------------
  // Runs of store operations

  /** One mutating call on the store. */
  datatype Op = Add(item: Item) | Update(id: Value, fields: Item) | Delete(id: Value)

  /** The sequence a call leaves in storage, given the one it read. */
  function Apply(items: seq<Item>, op: Op): (r: seq<Item>)
    ensures op.Add? ==> |r| == |items| + 1 && r[..|items|] == items && r[|items|] == op.item
    ensures op.Update? ==> |r| == |items|
    ensures op.Delete? ==> |r| <= |items|
  {
    match op
    case Add(item) => items + [item]
    case Update(id, fields) => UpdateById(items, id, fields)
    case Delete(id) => DeleteById(items, id)
  }

  /** The calls applied one after another, first to last. */
  function ApplyAll(items: seq<Item>, ops: seq<Op>): seq<Item>
    decreases |ops|
  {
    if ops == [] then items else ApplyAll(Apply(items, ops[0]), ops[1..])
  }

  /** A call that cannot create a duplicate id: an add of a new id, an
      update that leaves `id` as it was, or any delete. */
  ghost predicate KeepsIdsApart(items: seq<Item>, op: Op) {
    match op
    case Add(item) => FreshId(items, item)
    case Update(id, fields) => IdKey in fields ==> fields[IdKey] == id
    case Delete(_) => true
  }

  /** Every call of the run keeps ids apart at the moment it is made. */
  ghost predicate RunKeepsIdsApart(items: seq<Item>, ops: seq<Op>)
    decreases |ops|
  {
    ops != [] ==> KeepsIdsApart(items, ops[0]) && RunKeepsIdsApart(Apply(items, ops[0]), ops[1..])
  }

  /** Ids stay unique through any run of adds, updates and deletes whose
      every call keeps ids apart. */
  lemma {:induction false} RunKeepsIdsUnique(items: seq<Item>, ops: seq<Op>)
    requires UniqueIds(items) && RunKeepsIdsApart(items, ops)
    ensures UniqueIds(ApplyAll(items, ops))
    decreases |ops|
  {
    if ops != [] {
      match ops[0] {
        case Add(item) => AddFreshKeepsIdsUnique(items, item);
        case Update(id, fields) => UpdateKeepsIdsUnique(items, id, fields);
        case Delete(id) => DeleteKeepsIdsUnique(items, id);
      }
      RunKeepsIdsUnique(Apply(items, ops[0]), ops[1..]);
    }
  }
}
