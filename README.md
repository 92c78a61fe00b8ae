# Item list record store, modelled in Dafny

The application keeps a personal catalog of named items. Each item is a
`(name, stats, rating)` record: `stats` is free text and `rating` is an
integer from 0 to 10. The store behind the form interface is the `ItemList`
class in `App2.py`. It holds the records in insertion order and offers four
operations:

- add a record, refusing a name that is already taken and a rating outside 0..10;
- delete the first record with a given name;
- update a record in place, optionally renaming it (an empty new name keeps the old one);
- list all records.

After every successful change it rewrites the storage file (`items.json`)
with the whole catalog.

The model has three modules:

- `Catalog` (`catalog.dfy`) works on values. It holds the `Record` datatype
  and the catalog invariant `Wellformed`: unique names and ratings in 0..10.
  It gives one specification function per store operation (`Added`,
  `Deleted`, `Updated`). Each returns an `Outcome`: the new catalog, the
  status message, and whether the store writes the file. `Render` gives the
  listing text. The lemmas about these functions are in this module too.
- `ItemLists` (`item_list.dfy`) has the class `ItemList`. Its field `items`
  is the catalog, and `AddItem`, `DelItem` and `UpdateItem` reassign it, as
  the source mutates its list. Delete and update search with a loop that
  returns early, as the source does. Each method is proved equal to its
  specification function. The ghost field `saved` is the content of the
  storage file: `None` while no file exists. `SaveItems` sets it to the
  current catalog, and it is called only on the success paths. Four
  session methods each start from a fresh store, and their contracts state
  the outcome: add a name then delete it twice, add with a rating of 11,
  rename a record onto another record's name, and update a record with an
  empty new name.
- `Decimal` (`decimal.dfy`) turns an integer into its decimal text, as
  Python's string formatting does. The listing uses it to print ratings.
  It includes a parser and a round-trip proof.

An "empty" new name means the empty string. The store tests the new name
for emptiness only, so a name made of spaces is an ordinary name and
renames the record.

## Model

| member | source | states |
|---|---|---|
| Catalog.FindName | App2.py:22-23 | the index found is the first record carrying the name, or the catalog length when no record does |
| Catalog.FindNameFound | App2.py:22-27 | the search finds a record exactly when some record carries the name, so the not-found return is reached only when none does |
| Catalog.Added | App2.py:11-19 | success exactly when the name is new and the rating is in 0..10; success appends the record at the end, keeps every earlier record, grows the length by one and reports "Added item: <name>"; a taken name reports the duplicate whatever the rating; a bad rating reports the rating error; every failure leaves the catalog unchanged; unique names and in-range ratings are preserved |
| Catalog.AddDuplicateFirst | App2.py:12-13 | with the name already present, add reports "Name already in your list" and changes nothing, even when the rating is also bad |
| Catalog.Deleted | App2.py:21-27 | success exactly when some record has the name; it removes exactly the first such record, keeps the others in order and reports the removal; otherwise the catalog is unchanged and "Item not in the list." is reported; on a well-formed catalog the result is well-formed and no longer holds the name |
| Catalog.RemovePreservesWellformed | App2.py:24 | removing one record from a catalog with unique names and valid ratings keeps both invariants and leaves the removed name absent |
| Catalog.Updated | App2.py:29-40 | success exactly when the old name is present, the new name is not held by another record and the rating is in 0..10; success overwrites only the first matching index with the resulting name, the stats and the rating; the length and all other positions are unchanged; the message names the resulting name; the not-found, name-taken and bad-rating failures report their own messages in that order of checks and leave the catalog unchanged; the invariants are preserved |
| Catalog.ReplacePreservesWellformed | App2.py:32-35 | overwriting the matched record, when the rename guard passed and the rating is valid, keeps names unique and ratings in range |
| Catalog.NameHeldByOtherMeaning | App2.py:32 | the rename guard holds exactly when the new name is non-empty, differs from the old name and is already in the catalog |
| Catalog.UpdateEmptyKeepsName | App2.py:34-37 | an update with an empty new name and a valid rating succeeds, keeps the record's name and reports "Updated item: <old name>" |
| Catalog.UpdateRenames | App2.py:32-37 | an update whose non-empty new name no record holds, with a valid rating, succeeds, gives the matched record the new name, the stats and the rating, and reports "Updated item: <new name>" |
| Catalog.UpdateToOtherName | App2.py:32-33 | in a well-formed catalog, renaming one record to another record's non-empty name is refused with "New name already exists in the list." and changes nothing |
| Catalog.AddThenDelete | App2.py:15-26 | deleting a name just added gives back the catalog as it was before the add |
| Catalog.AddTwice | App2.py:12-15 | adding the same name twice makes the second add report the duplicate and keep the catalog the first add produced |
| Catalog.ListingStartsWithName | App2.py:45 | a non-empty listing starts with the line "Name: " followed by the first record's name |
| Catalog.JoinConcat | App2.py:45 | joining two non-empty lists of parts with newlines, one after the other, is joining each and putting one newline between them |
| Catalog.RenderEmptyIff | App2.py:43-45 | the listing is "No items in the list." exactly when the catalog is empty |
| Catalog.RenderConcat | App2.py:45 | the listing of two non-empty catalogs placed one after the other is the first listing, a newline, then the second listing, so there is one block per record in catalog order |
| Catalog.RenderSingle | App2.py:45 | a one-record listing is that record's Name/Stats/Rating block |
| ItemLists.ItemList.constructor | App2.py:7-9 | the catalog starts as the stored records, or empty when there is no file; the file content is unchanged |
| ItemLists.ItemList.SaveItems | App2.py:47-49 | afterwards the file holds exactly the current catalog |
| ItemLists.ItemList.AddItem | App2.py:11-19 | the new catalog and the message are those of `Added`; the file is rewritten with the new catalog on success and untouched on failure; the invariants are kept |
| ItemLists.ItemList.DelItem | App2.py:21-27 | the new catalog and the message are those of `Deleted`; the file is rewritten on success only; on a well-formed catalog the name is gone afterwards |
| ItemLists.ItemList.UpdateItem | App2.py:29-40 | the new catalog and the message are those of `Updated`; the file is rewritten on success only; the invariants are kept |
| ItemLists.ItemList.DisplayItems | App2.py:42-45 | the listing is the fixed empty message exactly when the catalog is empty; otherwise it starts with the line "Name: " followed by the first record's name |
| ItemLists.AddDeleteSession | App2.py:11-27 | from an empty store: add "X" succeeds, deleting it empties the catalog, and deleting it again reports "Item not in the list." |
| ItemLists.BadRatingSession | App2.py:14-19 | adding with rating 11 reports the rating error, the catalog stays empty and no storage file is written |
| ItemLists.RenameClashSession | App2.py:29-40 | after adding "A" and "B", renaming "A" to "B" is refused and both records keep their ratings |
| ItemLists.EmptyRenameSession | App2.py:29-37 | after adding "X", updating it with an empty new name gives the record ("X", "h", 7) |
| Decimal.NatRoundTrip | App2.py:45 | reading back the decimal text of a natural number gives the number |
| Decimal.IntRoundTrip | App2.py:45 | the decimal text of any integer, with a minus sign for negatives, reads back as that integer |
| Decimal.IntToStringInjective | App2.py:45 | two ratings with the same printed text are equal |

## Left out

- The tkinter user interface (`ItemListApp`, App2.py:57-234) and the start-up lines (App2.py:237-239). These are widgets, message boxes and event callbacks.
- The form-side input handling: stripping, empty-field checks and `int()` parsing with its error dialog (App2.py:164-178, 187-201). The store receives a typed integer rating.
- Real file I/O and JSON in `save_items` and `load_items` (App2.py:47-54). Saving is modelled by the ghost field `saved`. Loading becomes the constructor parameter `stored`. Writing JSON and reading it back is not modelled, so the persist-and-reload round trip is not stated. A failed write is not modelled either.
- `load_items` checks nothing, so a loaded catalog may break the invariants. The operations therefore do not require `Wellformed`. They state instead that a well-formed catalog stays well-formed.
- The `isinstance(rating, int)` test (App2.py:14, 34) admits Python booleans and refuses non-integers. In the model the rating is always an `int`, so only the range check remains.
- ItemLists.ItemList.DisplayItems: its contract states only that the listing is empty or not and how it starts; the full text is `Render`, whose block order is stated by `RenderConcat` and `RenderSingle`.
