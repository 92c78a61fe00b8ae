// The record store of the item list application, on values: the records, the
// two catalog invariants, and what each store operation does to a catalog
// (the new catalog, the status message, and whether the catalog is written
// to storage afterwards).
module Catalog {
  import Decimal

  /** One catalog entry: a name, a free-text "stats" field and a rating. */
  datatype Record = Record(name: string, stats: string, rating: int)

  /** The outcome of one store operation. `persisted` says whether the store
      wrote its catalog to storage, which it does exactly on success. */
  datatype Outcome = Outcome(items: seq<Record>, message: string, persisted: bool)

  const NameTakenMessage := "Name already in your list"
  const AddRatingMessage := "Rating must be between 0 to 10 only"
  const NotInListMessage := "Item not in the list."
  const NewNameTakenMessage := "New name already exists in the list."
  const UpdateRatingMessage := "Rating must be between 0 to 10 only."
  const NotFoundMessage := "Item not found."
  const NoItemsMessage := "No items in the list."

  function AddedMessage(name: string): string { "Added item: " + name }
  function RemovedMessage(name: string): string { "Item '" + name + "' has been removed from the list." }
  function UpdatedMessage(name: string): string { "Updated item: " + name }

  predicate ValidRating(rating: int) { 0 <= rating <= 10 }

  /** Some record is called `name`. */
  predicate HasName(items: seq<Record>, name: string)
  {
    exists i | 0 <= i < |items| :: items[i].name == name
  }

  /** The rename guard of an update: `newName` is non-empty and is held by a
      record whose name is not `name`. */
  predicate NameHeldByOther(items: seq<Record>, name: string, newName: string)
  {
    newName != "" && exists i | 0 <= i < |items| :: items[i].name == newName && items[i].name != name
  }

  ghost predicate UniqueNames(items: seq<Record>)
  {
    forall i, j :: 0 <= i < j < |items| ==> items[i].name != items[j].name
  }

  ghost predicate RatingsInRange(items: seq<Record>)
  {
    forall i :: 0 <= i < |items| ==> ValidRating(items[i].rating)
  }

  /** The catalog invariant: names are unique and every rating lies in 0..10. */
  ghost predicate Wellformed(items: seq<Record>)
  {
    UniqueNames(items) && RatingsInRange(items)
  }

  /** The index of the first record called `name`, or `|items|` when none is. */
  function FindName(items: seq<Record>, name: string): (k: nat)
    ensures k <= |items|
    ensures k < |items| ==> items[k].name == name
    ensures forall j :: 0 <= j < k ==> items[j].name != name
    decreases |items|
  {
    if |items| == 0 then 0
    else if items[0].name == name then 0
    else 1 + FindName(items[1..], name)
  }

  lemma FindNameFound(items: seq<Record>, name: string)
    ensures FindName(items, name) < |items| <==> HasName(items, name)
  {
  }

  /** The name an update leaves on the record: an empty new name keeps the old. */
  function ResultingName(name: string, newName: string): string
  {
    if newName != "" then newName else name
  }

  // ---------------------------------------------------------------- add

  function Added(items: seq<Record>, name: string, stats: string, rating: int): (o: Outcome)
    ensures o.persisted <==> !HasName(items, name) && ValidRating(rating)
    ensures !o.persisted ==> o.items == items
    ensures o.persisted ==>
      |o.items| == |items| + 1 && o.items[..|items|] == items &&
      o.items[|items|] == Record(name, stats, rating) && o.message == AddedMessage(name)
    ensures HasName(items, name) ==> o.message == NameTakenMessage
    ensures !HasName(items, name) && !ValidRating(rating) ==> o.message == AddRatingMessage
    ensures Wellformed(items) ==> Wellformed(o.items)
  {
    if HasName(items, name) then Outcome(items, NameTakenMessage, false)
    else if ValidRating(rating) then Outcome(items + [Record(name, stats, rating)], AddedMessage(name), true)
    else Outcome(items, AddRatingMessage, false)
  }

  /** The name check comes before the rating check. */
  lemma AddDuplicateFirst(items: seq<Record>, name: string, stats: string, rating: int)
    requires HasName(items, name)
    ensures Added(items, name, stats, rating) == Outcome(items, NameTakenMessage, false)
  {
  }

  // ------------------------------------------------------------- delete

  function Deleted(items: seq<Record>, name: string): (o: Outcome)
    ensures o.persisted <==> HasName(items, name)
    ensures !o.persisted ==> o.items == items && o.message == NotInListMessage
    ensures o.persisted ==>
      var k := FindName(items, name);
      k < |items| && items[k].name == name &&
      (forall j :: 0 <= j < k ==> items[j].name != name) &&
      |o.items| == |items| - 1 &&
      o.items[..k] == items[..k] && o.items[k..] == items[k + 1..] &&
      o.message == RemovedMessage(name)
    ensures Wellformed(items) ==> Wellformed(o.items) && !HasName(o.items, name)
  {
    var k := FindName(items, name);
    if k == |items| then Outcome(items, NotInListMessage, false)
    else
      var rest := items[..k] + items[k + 1..];
      RemovePreservesWellformed(items, k);
      Outcome(rest, RemovedMessage(name), true)
  }

  lemma RemovePreservesWellformed(items: seq<Record>, k: nat)
    requires k < |items|
    ensures Wellformed(items) ==>
      Wellformed(items[..k] + items[k + 1..]) && !HasName(items[..k] + items[k + 1..], items[k].name)
  {
    var rest := items[..k] + items[k + 1..];
    assert forall i :: 0 <= i < |rest| ==> rest[i] == items[if i < k then i else i + 1];
  }

  // ------------------------------------------------------------- update

  function Updated(items: seq<Record>, name: string, newName: string, stats: string, rating: int): (o: Outcome)
    ensures o.persisted <==>
      HasName(items, name) && !NameHeldByOther(items, name, newName) && ValidRating(rating)
    ensures !o.persisted ==> o.items == items
    ensures o.persisted ==>
      var k := FindName(items, name);
      k < |items| && |o.items| == |items| &&
      o.items[k] == Record(ResultingName(name, newName), stats, rating) &&
      (forall j :: 0 <= j < |items| && j != k ==> o.items[j] == items[j]) &&
      o.message == UpdatedMessage(ResultingName(name, newName))
    ensures !HasName(items, name) ==> o.message == NotFoundMessage
    ensures HasName(items, name) && NameHeldByOther(items, name, newName) ==> o.message == NewNameTakenMessage
    ensures HasName(items, name) && !NameHeldByOther(items, name, newName) && !ValidRating(rating) ==>
      o.message == UpdateRatingMessage
    ensures Wellformed(items) ==> Wellformed(o.items)
  {
    var k := FindName(items, name);
    if k == |items| then Outcome(items, NotFoundMessage, false)
    else if NameHeldByOther(items, name, newName) then Outcome(items, NewNameTakenMessage, false)
    else if !ValidRating(rating) then Outcome(items, UpdateRatingMessage, false)
    else
      var r := Record(ResultingName(name, newName), stats, rating);
      ReplacePreservesWellformed(items, k, r, name, newName);
      Outcome(items[k := r], UpdatedMessage(r.name), true)
  }

  lemma ReplacePreservesWellformed(items: seq<Record>, k: nat, r: Record, name: string, newName: string)
    requires k < |items| && items[k].name == name
    requires !NameHeldByOther(items, name, newName) && r.name == ResultingName(name, newName)
    requires ValidRating(r.rating)
    ensures Wellformed(items) ==> Wellformed(items[k := r])
  {
    if Wellformed(items) {
      var after := items[k := r];
      forall i, j | 0 <= i < j < |after| ensures after[i].name != after[j].name {
        if i == k || j == k {
          // The other record is not called `name` (names are unique), so it
          // would be called `newName` if it clashed, which the guard excludes.
          var other := if i == k then j else i;
          assert items[other].name != name;
        }
      }
    }
  }

  /** The rename guard holds exactly when the new name is non-empty, differs
      from the old one and is already in the catalog. */
  lemma NameHeldByOtherMeaning(items: seq<Record>, name: string, newName: string)
    ensures NameHeldByOther(items, name, newName) <==>
      newName != "" && newName != name && HasName(items, newName)
  {
    if newName != "" && newName != name && HasName(items, newName) {
      var i :| 0 <= i < |items| && items[i].name == newName;
      assert items[i].name != name;
    }
  }

  // ------------------------------------------------------------ display

  /** One listing block: three labelled lines, the last ending in a newline. */
  function Block(r: Record): string
  {
    "Name: " + r.name + "\nStats: " + r.stats + "\nRating: " + Decimal.IntToString(r.rating) + "\n"
  }

  /** The block of each record, in catalog order. */
  function Blocks(items: seq<Record>): seq<string>
  {
    seq(|items|, i requires 0 <= i < |items| => Block(items[i]))
  }

  /** The parts separated by newlines, as `"\n".join(parts)` builds them. */
  function Join(parts: seq<string>): string
    requires parts != []
    decreases |parts|
  {
    if |parts| == 1 then parts[0] else Join(parts[..|parts| - 1]) + "\n" + parts[|parts| - 1]
  }

  /** The text of the listing: a fixed message for an empty catalog. */
  function Render(items: seq<Record>): string
  {
    if items == [] then NoItemsMessage else Join(Blocks(items))
  }

  /** The first line of a non-empty listing: the label and the first record's name. */
  function FirstLine(items: seq<Record>): string
    requires items != []
  {
    "Name: " + items[0].name + "\n"
  }

  lemma PrefixOfConcat(t: string, u: string)
    ensures (t + u)[..|t|] == t
  {
  }

  /** A joined text starts with its first part. */
  lemma {:induction false} JoinStartsWithFirst(parts: seq<string>)
    requires parts != []
    ensures |Join(parts)| >= |parts[0]| && Join(parts)[..|parts[0]|] == parts[0]
    decreases |parts|
  {
    if |parts| > 1 {
      var front := parts[..|parts| - 1];
      assert front[0] == parts[0];
      JoinStartsWithFirst(front);
      var tail := "\n" + parts[|parts| - 1];
      assert Join(parts) == Join(front) + tail;
      var n := |parts[0]|;
      assert Join(front) == Join(front)[..n] + Join(front)[n..];
      PrefixOfConcat(Join(front)[..n], Join(front)[n..] + tail);
    }
  }

  /** A non-empty listing starts with the first record's name line. */
  lemma ListingStartsWithName(items: seq<Record>)
    requires items != []
    ensures |Render(items)| >= |FirstLine(items)|
    ensures Render(items)[..|FirstLine(items)|] == FirstLine(items)
  {
    var line := FirstLine(items);
    var rest := "Stats: " + items[0].stats + "\nRating: " + Decimal.IntToString(items[0].rating) + "\n";
    assert Block(items[0]) == line + rest;
    PrefixOfConcat(line, rest);
    var blocks := Blocks(items);
    JoinStartsWithFirst(blocks);
    var n := |blocks[0]|;
    assert Render(items)[..|line|] == Render(items)[..n][..|line|];
  }

  /** The listing is the fixed message exactly when the catalog is empty. */
  lemma RenderEmptyIff(items: seq<Record>)
    ensures Render(items) == NoItemsMessage <==> items == []
  {
    if items != [] {
      ListingStartsWithName(items);
      assert Render(items)[1] == FirstLine(items)[1] == 'a' != NoItemsMessage[1];
    }
  }

  /** Joining two lists of parts one after the other is joining each and
      putting a newline between them. */
  lemma {:induction false} JoinConcat(p: seq<string>, q: seq<string>)
    requires p != [] && q != []
    ensures Join(p + q) == Join(p) + "\n" + Join(q)
    decreases |q|
  {
    var last := q[|q| - 1];
    assert (p + q)[|p + q| - 1] == last;
    if |q| == 1 {
      assert (p + q)[..|p + q| - 1] == p;
    } else {
      var q' := q[..|q| - 1];
      assert (p + q)[..|p + q| - 1] == p + q';
      JoinConcat(p, q');
      calc {
        Join(p + q);
        Join(p + q') + "\n" + last;
        Join(p) + "\n" + Join(q') + "\n" + last;
        Join(p) + "\n" + (Join(q') + "\n" + last);
        Join(p) + "\n" + Join(q);
      }
    }
  }

  /** Listing two non-empty catalogs one after the other is listing each and
      putting a newline between them: one block per record, in order. */
  lemma RenderConcat(a: seq<Record>, b: seq<Record>)
    requires a != [] && b != []
    ensures Render(a + b) == Render(a) + "\n" + Render(b)
  {
    assert Blocks(a + b) == Blocks(a) + Blocks(b);
    JoinConcat(Blocks(a), Blocks(b));
  }

  lemma RenderSingle(r: Record)
    ensures Render([r]) == Block(r)
  {
    assert Blocks([r]) == [Block(r)];
  }

  // --------------------------------------------------- store scenarios

  /** Adding a record then deleting it by name gives back the catalog. */
  lemma AddThenDelete(items: seq<Record>, name: string, stats: string, rating: int)
    requires !HasName(items, name) && ValidRating(rating)
    ensures var o := Added(items, name, stats, rating);
      Deleted(o.items, name) == Outcome(items, RemovedMessage(name), true)
  {
    var grown := items + [Record(name, stats, rating)];
    FindNameAppendAbsent(items, Record(name, stats, rating));
    assert grown[..|items|] == items;
  }

  lemma {:induction false} FindNameAppendAbsent(items: seq<Record>, r: Record)
    requires !HasName(items, r.name)
    ensures FindName(items + [r], r.name) == |items|
    decreases |items|
  {
    if items != [] {
      assert (items + [r])[1..] == items[1..] + [r];
      assert forall i :: 0 <= i < |items[1..]| ==> items[1..][i] == items[i + 1];
      FindNameAppendAbsent(items[1..], r);
    }
  }

  /** Adding the same name twice: the second add reports the duplicate and
      leaves the catalog as the first add made it. */
  lemma AddTwice(items: seq<Record>, name: string, s1: string, r1: int, s2: string, r2: int)
    requires !HasName(items, name) && ValidRating(r1)
    ensures var o := Added(items, name, s1, r1);
      Added(o.items, name, s2, r2) == Outcome(o.items, NameTakenMessage, false)
  {
    var grown := items + [Record(name, s1, r1)];
    assert grown[|items|].name == name;
  }

  /** An update with an empty new name keeps the record's name. */
  lemma UpdateEmptyKeepsName(items: seq<Record>, name: string, stats: string, rating: int)
    requires HasName(items, name) && ValidRating(rating)
    ensures var o := Updated(items, name, "", stats, rating);
      o.persisted && o.message == UpdatedMessage(name) &&
      o.items[FindName(items, name)] == Record(name, stats, rating)
  {
  }

  /** An update with a new name that no record holds renames the record. */
  lemma UpdateRenames(items: seq<Record>, name: string, newName: string, stats: string, rating: int)
    requires HasName(items, name) && newName != "" && !HasName(items, newName) && ValidRating(rating)
    ensures var o := Updated(items, name, newName, stats, rating);
      o.persisted && o.message == UpdatedMessage(newName) &&
      o.items[FindName(items, name)] == Record(newName, stats, rating)
  {
  }

  /** Renaming one record to the name of another is refused and changes nothing. */
  lemma UpdateToOtherName(items: seq<Record>, a: nat, b: nat, stats: string, rating: int)
    requires Wellformed(items) && a < |items| && b < |items| && a != b
    requires items[b].name != ""
    ensures Updated(items, items[a].name, items[b].name, stats, rating)
         == Outcome(items, NewNameTakenMessage, false)
  {
    var name, newName := items[a].name, items[b].name;
    assert name != newName by {
      if a < b { assert items[a].name != items[b].name; } else { assert items[b].name != items[a].name; }
    }
    assert HasName(items, name) by { assert items[a].name == name; }
    assert NameHeldByOther(items, name, newName) by { assert items[b].name == newName; }
  }
}
