// The item list store as an object: the catalog is a field that the add,
// delete and update operations change in place, and `saved` stands for the
// contents of the storage file, which the store rewrites after every
// successful change.
module ItemLists {
  import opened Catalog

  datatype Option<T> = None | Some(value: T)

  class ItemList {
    /** The catalog, in insertion order. */
    var items: seq<Record>
    /** What the storage file holds: `None` while there is no file. */
    ghost var saved: Option<seq<Record>>

    /** Starts from what the storage file holds, or from an empty catalog
        when there is no file. Nothing is checked about the loaded records. */
    constructor (stored: Option<seq<Record>>)
      ensures items == (if stored.Some? then stored.value else [])
      ensures saved == stored
    {
      items := if stored.Some? then stored.value else [];
      saved := stored;
    }

    /** Rewrites the storage file with the whole catalog. */
    method SaveItems()
      modifies this`saved
      ensures saved == Some(items)
    {
      saved := Some(items);
    }

    method AddItem(name: string, stats: string, rating: int) returns (msg: string)
      modifies this
      ensures var o := Added(old(items), name, stats, rating);
        items == o.items && msg == o.message &&
        saved == (if o.persisted then Some(items) else old(saved))
      ensures old(Wellformed(items)) ==> Wellformed(items)
    {
      if HasName(items, name) {
        return NameTakenMessage;
      }
      if ValidRating(rating) {
        items := items + [Record(name, stats, rating)];
        SaveItems();
        return AddedMessage(name);
      } else {
        return AddRatingMessage;
      }
    }

    /** Removes the first record called `name`. */
    method DelItem(name: string) returns (msg: string)
      modifies this
      ensures var o := Deleted(old(items), name);
        items == o.items && msg == o.message &&
        saved == (if o.persisted then Some(items) else old(saved))
      ensures old(Wellformed(items)) ==> Wellformed(items) && !HasName(items, name)
    {
      var index := 0;
      while index < |items|
        invariant index <= |items|
        invariant items == old(items) && saved == old(saved)
        invariant forall j :: 0 <= j < index ==> items[j].name != name
      {
        if items[index].name == name {
          assert FindName(items, name) == index;
          items := items[..index] + items[index + 1..];
          SaveItems();
          return RemovedMessage(name);
        }
        index := index + 1;
      }
      assert FindName(items, name) == |items|;
      return NotInListMessage;
    }

    /** Overwrites the first record called `name`, renaming it to `newName`
        unless `newName` is empty. */
    method UpdateItem(name: string, newName: string, stats: string, rating: int) returns (msg: string)
      modifies this
      ensures var o := Updated(old(items), name, newName, stats, rating);
        items == o.items && msg == o.message &&
        saved == (if o.persisted then Some(items) else old(saved))
      ensures old(Wellformed(items)) ==> Wellformed(items)
    {
      var index := 0;
      while index < |items|
        invariant index <= |items|
        invariant items == old(items) && saved == old(saved)
        invariant forall j :: 0 <= j < index ==> items[j].name != name
      {
        if items[index].name == name {
          assert FindName(items, name) == index;
          if NameHeldByOther(items, name, newName) {
            return NewNameTakenMessage;
          }
          if ValidRating(rating) {
            var resulting := ResultingName(name, newName);
            items := items[index := Record(resulting, stats, rating)];
            SaveItems();
            return UpdatedMessage(resulting);
          } else {
            return UpdateRatingMessage;
          }
        }
        index := index + 1;
      }
      assert FindName(items, name) == |items|;
      return NotFoundMessage;
    }

    /** The listing: one block per record in catalog order, or a fixed
        message when the catalog is empty. */
    function DisplayItems(): (s: string)
      reads this
      ensures s == NoItemsMessage <==> items == []
      ensures items != [] ==> |s| >= |FirstLine(items)| && s[..|FirstLine(items)|] == FirstLine(items)
    {
      RenderEmptyIff(items);
      if items == [] then NoItemsMessage
      else
        ListingStartsWithName(items);
        Render(items)
    }
  }

  // A few sessions against the store, each from an empty catalog.

  /** Add then delete the same name, then delete it again. */
  method AddDeleteSession() returns (added: string, removed: string, again: string, left: seq<Record>)
    ensures added == AddedMessage("X") && removed == RemovedMessage("X")
    ensures again == NotInListMessage && left == []
  {
    var store := new ItemList(None);
    added := store.AddItem("X", "g", 5);
    removed := store.DelItem("X");
    assert store.items == [];
    again := store.DelItem("X");
    left := store.items;
  }

  /** An out-of-range rating is refused and nothing is written. */
  method BadRatingSession() returns (msg: string, left: seq<Record>, ghost file: Option<seq<Record>>)
    ensures msg == AddRatingMessage && left == []
    ensures file == None
  {
    var store := new ItemList(None);
    msg := store.AddItem("X", "g", 11);
    left := store.items;
    file := store.saved;
  }

  /** Renaming "A" to the name of "B" is refused and both records stay. */
  method RenameClashSession() returns (msg: string, left: seq<Record>)
    ensures msg == NewNameTakenMessage
    ensures left == [Record("A", "s", 1), Record("B", "s", 2)]
  {
    var store := new ItemList(None);
    var _ := store.AddItem("A", "s", 1);
    var _ := store.AddItem("B", "s", 2);
    assert store.items[1].name == "B";
    msg := store.UpdateItem("A", "B", "s", 3);
    left := store.items;
  }

  /** An update with an empty new name keeps the record's name. */
  method EmptyRenameSession() returns (msg: string, left: seq<Record>)
    ensures msg == UpdatedMessage("X")
    ensures left == [Record("X", "h", 7)]
  {
    var store := new ItemList(None);
    var _ := store.AddItem("X", "g", 5);
    msg := store.UpdateItem("X", "", "h", 7);
    left := store.items;
  }
}
