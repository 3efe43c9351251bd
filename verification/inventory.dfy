/** The inventory's list state: the seed list, the search filter, add, edit,
    delete with its whole-list undo, and the save flow that runs the dialog's
    schema before touching the list. */
module Inventory {
  import opened Wrappers
  import opened Types
  import Text
  import Seqs
  import opened ItemDialog

  /** The list the inventory starts with. */
  const Seed: seq<Item> := [
    Item("1", "Laptop", "Electronics", 15, 1200.0, None, None, None),
    Item("2", "Office Chair", "Furniture", 25, 250.0, None, None, None),
    Item("3", "Printer", "Electronics", 5, 350.0, None, None, None)
  ]

  /** The two items have different ids. */
  predicate DistinctIds(a: Item, b: Item) {
    a.id != b.id
  }

  /** The two items' names differ even ignoring case. */
  predicate DistinctNames(a: Item, b: Item) {
    !Text.SameFold(a.name, b.name)
  }

  /** No two items share an id. */
  ghost predicate UniqueIds(items: seq<Item>) {
    Seqs.Pairwise(items, DistinctIds)
  }

  /** No two items share a name, ignoring case. */
  ghost predicate UniqueNames(items: seq<Item>) {
    Seqs.Pairwise(items, DistinctNames)
  }

  /** The state the dialog is meant to keep: valid items, unique ids and names. */
  ghost predicate WellFormed(items: seq<Item>) {
    && (forall x :: x in items ==> ValidItem(x))
    && UniqueIds(items)
    && UniqueNames(items)
  }

  /** The seed list is well formed. */
  lemma SeedWellFormed()
    ensures WellFormed(Seed)
  {
    assert Text.Lower("Laptop")[0] == 'l';
    assert Text.Lower("Office Chair")[0] == 'o';
    assert Text.Lower("Printer")[0] == 'p';
  }

  // ---------------------------------------------------------------- search

  /** The item's name contains the search term, both folded to lower case. */
  function MatchesSearch(term: string): Item -> bool {
    (x: Item) => Text.Contains(Text.Lower(x.name), Text.Lower(term))
  }

  /** `filteredItems`: the items whose lower-cased name contains the lower-cased term. */
  function Search(items: seq<Item>, term: string): (r: seq<Item>)
    ensures forall x :: x in r <==> x in items && Text.Contains(Text.Lower(x.name), Text.Lower(term))
    ensures Seqs.IsSubsequence(r, items)
  {
    Seqs.Filter(items, MatchesSearch(term))
  }

  /** The search keeps every matching item as often as it occurs, in order, and nothing else. */
  lemma SearchExact(items: seq<Item>, term: string, x: Item)
    ensures multiset(Search(items, term))[x] ==
            if Text.Contains(Text.Lower(x.name), Text.Lower(term)) then multiset(items)[x] else 0
  {
    Seqs.FilterCount(items, MatchesSearch(term), x);
  }

  /** An empty search term shows the whole list unchanged. */
  lemma SearchEmptyTerm(items: seq<Item>)
    ensures Search(items, "") == items
  {
    forall x | x in items
      ensures MatchesSearch("")(x)
    {
      Text.ContainsEmpty(Text.Lower(x.name));
      assert Text.Lower("") == "";
    }
    Seqs.FilterAll(items, MatchesSearch(""));
  }

  // ---------------------------------------------------------------- add and edit

  /** `handleAddItem`: the item, with the fresh id `freshId`, appended at the end. */
  function AddItem(items: seq<Item>, item: Item, freshId: string): (r: seq<Item>)
    ensures |r| == |items| + 1
    ensures r[..|items|] == items
    ensures r[|items|].id == freshId
    ensures r[|items|] == item.(id := freshId)
  {
    items + [item.(id := freshId)]
  }

  /** `handleEditItem`: every entry whose id is the updated item's id becomes the
      updated item stamped with `stamp`; all other entries stay as they are. */
  function EditItem(items: seq<Item>, updated: Item, stamp: string): (r: seq<Item>)
    ensures |r| == |items|
    ensures forall i :: 0 <= i < |items| && items[i].id != updated.id ==> r[i] == items[i]
    ensures forall i :: 0 <= i < |items| && items[i].id == updated.id ==>
              r[i] == updated.(lastUpdated := Some(stamp))
    ensures forall i :: 0 <= i < |items| ==> r[i].id == items[i].id
  {
    if |items| == 0 then []
    else
      var head := if items[0].id == updated.id then updated.(lastUpdated := Some(stamp)) else items[0];
      var rest := EditItem(items[1..], updated, stamp);
      assert forall i :: 0 < i <= |rest| ==> ([head] + rest)[i] == rest[i - 1];
      [head] + rest
  }

  /** Adding an item with a fresh id keeps the ids unique. */
  lemma AddKeepsIdsUnique(items: seq<Item>, item: Item, freshId: string)
    requires UniqueIds(items)
    requires forall x :: x in items ==> x.id != freshId
    ensures UniqueIds(AddItem(items, item, freshId))
  {
    var r := AddItem(items, item, freshId);
    forall i, j | 0 <= i < j < |r|
      ensures DistinctIds(r[i], r[j])
    {
      assert r[i] == items[i];
      if j < |items| {
        assert r[j] == items[j];
      } else {
        assert items[i] in items;
      }
    }
  }

  /** Editing never changes an id, so unique ids stay unique. */
  lemma EditKeepsIdsUnique(items: seq<Item>, updated: Item, stamp: string)
    requires UniqueIds(items)
    ensures UniqueIds(EditItem(items, updated, stamp))
  {
    var r := EditItem(items, updated, stamp);
    forall i, j | 0 <= i < j < |r|
      ensures DistinctIds(r[i], r[j])
    {
      assert DistinctIds(items[i], items[j]);
    }
  }

  /** A name the schema accepts when adding can be appended without clashing. */
  lemma AddKeepsNamesUnique(items: seq<Item>, v: FormValues, timestamp: string, generatedId: string, freshId: string)
    requires UniqueNames(items)
    requires Validate(v, items, SchemaContext(Add, None)).Ok?
    ensures UniqueNames(AddItem(items, ItemToSave(v, Add, None, timestamp, generatedId), freshId))
  {
    var r := AddItem(items, ItemToSave(v, Add, None, timestamp, generatedId), freshId);
    forall i, j | 0 <= i < j < |r|
      ensures DistinctNames(r[i], r[j])
    {
      assert r[i] == items[i];
      if j < |items| {
        assert r[j] == items[j];
      } else {
        assert items[i] in items;
        assert r[j].name == v.name;
      }
    }
  }

  /** A name the schema accepts when editing `cur` can replace `cur`'s without
      clashing: either it is `cur`'s own name in another case, or nobody uses it. */
  lemma EditKeepsNamesUnique(items: seq<Item>, cur: Item, v: FormValues, timestamp: string,
                             generatedId: string, stamp: string)
    requires UniqueNames(items) && UniqueIds(items)
    requires cur in items
    requires Validate(v, items, SchemaContext(Edit, Some(cur))).Ok?
    ensures UniqueNames(EditItem(items, ItemToSave(v, Edit, Some(cur), timestamp, generatedId), stamp))
  {
    var saved := ItemToSave(v, Edit, Some(cur), timestamp, generatedId);
    var r := EditItem(items, saved, stamp);
    var c :| 0 <= c < |items| && items[c] == cur;
    assert forall k :: 0 <= k < |items| && items[k].id == cur.id ==> k == c;
    forall i, j | 0 <= i < j < |r|
      ensures DistinctNames(r[i], r[j])
    {
      if i != c && j != c {
        assert r[i] == items[i] && r[j] == items[j];
        assert DistinctNames(items[i], items[j]);
      } else {
        var o := if i == c then j else i;
        assert r[o] == items[o];
        assert items[o] in items;
        assert DistinctNames(items[c], items[o]) || DistinctNames(items[o], items[c]) by {
          if o < c { assert DistinctNames(items[o], items[c]); }
          else { assert DistinctNames(items[c], items[o]); }
        }
        assert r[c].name == v.name;
      }
    }
  }

  // ---------------------------------------------------------------- save flow

  /** `handleSaveItem` for values the schema accepted: an add appends the saved
      item under `freshId`, an edit replaces the entries with its id. */
  function Save(items: seq<Item>, v: FormValues, mode: Mode, current: Option<Item>, timestamp: string,
                generatedId: string, freshId: string, stamp: string): seq<Item>
    requires IsWhole(v.quantity)
  {
    var saved := ItemToSave(v, mode, current, timestamp, generatedId);
    if mode == Add then AddItem(items, saved, freshId) else EditItem(items, saved, stamp)
  }

  /** Submitting the dialog as the code does it: the schema as written (with the
      current item as context only when editing) checks the values, and only
      when it accepts does `onSubmit` run and `handleSaveItem` add or edit.
      `timestamp` is the submit time, `generatedId` the dialog's id, `freshId`
      the id `handleAddItem` assigns and `stamp` the time `handleEditItem` takes. */
  function Submit(items: seq<Item>, v: FormValues, mode: Mode, current: Option<Item>, timestamp: string,
                  generatedId: string, freshId: string, stamp: string): (r: Result<seq<Item>, seq<Issue>>)
    ensures r.Err? <==> !(Acceptable(v, items, SchemaContext(mode, current)) &&
                          v.description.Some? && v.supplier.Some? && v.lastUpdated.Some?)
    ensures r.Err? ==> |r.error| > 0 &&
                       forall e :: e in r.error <==> Violates(v, items, SchemaContext(mode, current), e)
    ensures r.Ok? ==> IsWhole(v.quantity)
    ensures r.Ok? && mode == Add ==>
              r.value == items + [ItemToSave(v, mode, current, timestamp, generatedId).(id := freshId)]
    ensures r.Ok? && mode == Edit ==> |r.value| == |items|
    ensures r.Ok? && mode == Edit ==>
              var saved := ItemToSave(v, mode, current, timestamp, generatedId);
              forall i :: 0 <= i < |items| ==>
                r.value[i] == if items[i].id == saved.id then saved.(lastUpdated := Some(stamp)) else items[i]
  {
    match ValidateAsWritten(v, items, SchemaContext(mode, current))
    case Err(issues) => Err(issues)
    case Ok(vals) => Ok(Save(items, vals, mode, current, timestamp, generatedId, freshId, stamp))
  }

  /** The save flow with absent free-text fields accepted: the same as `Submit`
      except that `Validate` replaces the schema as written. */
  function SubmitCorrected(items: seq<Item>, v: FormValues, mode: Mode, current: Option<Item>, timestamp: string,
                           generatedId: string, freshId: string, stamp: string): (r: Result<seq<Item>, seq<Issue>>)
    ensures r.Err? <==> !Acceptable(v, items, SchemaContext(mode, current))
    ensures r.Err? ==> |r.error| > 0
    ensures r.Ok? ==> IsWhole(v.quantity)
    ensures r.Ok? && mode == Add ==>
              r.value == items + [ItemToSave(v, mode, current, timestamp, generatedId).(id := freshId)]
    ensures r.Ok? && mode == Edit ==> |r.value| == |items|
    ensures r.Ok? && mode == Edit ==>
              var saved := ItemToSave(v, mode, current, timestamp, generatedId);
              forall i :: 0 <= i < |items| ==>
                r.value[i] == if items[i].id == saved.id then saved.(lastUpdated := Some(stamp)) else items[i]
  {
    match Validate(v, items, SchemaContext(mode, current))
    case Err(issues) => Err(issues)
    case Ok(vals) => Ok(Save(items, vals, mode, current, timestamp, generatedId, freshId, stamp))
  }

  /** The two save flows differ only where the free-text fields are missing:
      with all three present they agree, and whatever the flow as written saves,
      the corrected one saves too. */
  lemma SubmitAgrees(items: seq<Item>, v: FormValues, mode: Mode, current: Option<Item>, timestamp: string,
                     generatedId: string, freshId: string, stamp: string)
    ensures v.description.Some? && v.supplier.Some? && v.lastUpdated.Some? ==>
              Submit(items, v, mode, current, timestamp, generatedId, freshId, stamp)
              == SubmitCorrected(items, v, mode, current, timestamp, generatedId, freshId, stamp)
    ensures Submit(items, v, mode, current, timestamp, generatedId, freshId, stamp).Ok? ==>
              Submit(items, v, mode, current, timestamp, generatedId, freshId, stamp)
              == SubmitCorrected(items, v, mode, current, timestamp, generatedId, freshId, stamp)
  {
    if v.description.Some? && v.supplier.Some? && v.lastUpdated.Some? {
      AsWrittenAgrees(v, items, SchemaContext(mode, current));
    }
  }

  /** A successful corrected submit keeps the list well formed, given a fresh id
      for an add and, for an edit, the item being edited taken from the list. */
  lemma SubmitCorrectedKeepsWellFormed(items: seq<Item>, v: FormValues, mode: Mode, current: Option<Item>,
                                       timestamp: string, generatedId: string, freshId: string, stamp: string)
    requires WellFormed(items)
    requires mode == Add ==> forall x :: x in items ==> x.id != freshId
    requires mode == Edit ==> current.Some? && current.value in items
    requires SubmitCorrected(items, v, mode, current, timestamp, generatedId, freshId, stamp).Ok?
    ensures WellFormed(SubmitCorrected(items, v, mode, current, timestamp, generatedId, freshId, stamp).value)
  {
    var ctx := SchemaContext(mode, current);
    SavedItemValid(v, items, ctx, mode, current, timestamp, generatedId);
    var saved := ItemToSave(v, mode, current, timestamp, generatedId);
    var r := SubmitCorrected(items, v, mode, current, timestamp, generatedId, freshId, stamp).value;
    if mode == Add {
      AddKeepsIdsUnique(items, saved, freshId);
      AddKeepsNamesUnique(items, v, timestamp, generatedId, freshId);
      forall x | x in r
        ensures ValidItem(x)
      {
        var k :| 0 <= k < |r| && r[k] == x;
        if k < |items| {
          assert r[k] == items[k];
        }
      }
    } else {
      EditKeepsIdsUnique(items, saved, stamp);
      EditKeepsNamesUnique(items, current.value, v, timestamp, generatedId, stamp);
      forall x | x in r
        ensures ValidItem(x)
      {
        var k :| 0 <= k < |r| && r[k] == x;
        if items[k].id != saved.id {
          assert items[k] in items;
        }
      }
    }
  }

  /** A successful submit keeps the list well formed, given a fresh id for an
      add and, for an edit, the item being edited taken from the list. */
  lemma SubmitKeepsWellFormed(items: seq<Item>, v: FormValues, mode: Mode, current: Option<Item>,
                              timestamp: string, generatedId: string, freshId: string, stamp: string)
    requires WellFormed(items)
    requires mode == Add ==> forall x :: x in items ==> x.id != freshId
    requires mode == Edit ==> current.Some? && current.value in items
    requires Submit(items, v, mode, current, timestamp, generatedId, freshId, stamp).Ok?
    ensures WellFormed(Submit(items, v, mode, current, timestamp, generatedId, freshId, stamp).value)
  {
    SubmitAgrees(items, v, mode, current, timestamp, generatedId, freshId, stamp);
    SubmitCorrectedKeepsWellFormed(items, v, mode, current, timestamp, generatedId, freshId, stamp);
  }

  /** Adding "Laptop" again to the seed list is refused for its name, even in
      another category, and the list keeps its three items. */
  lemma DuplicateLaptopRejected(timestamp: string, generatedId: string, freshId: string, stamp: string)
    ensures var v := FormValues("", "laptop", Some(""), "Furniture", 1.0, 1.0, Some(""), Some(timestamp));
            && NameTaken in Submit(Seed, v, Add, None, timestamp, generatedId, freshId, stamp).error
            && |Seed| == 3
  {
    var v := FormValues("", "laptop", Some(""), "Furniture", 1.0, 1.0, Some(""), Some(timestamp));
    assert Seed[0] in Seed;
    assert Text.SameFold(Seed[0].name, v.name);
  }

  // ---------------------------------------------------------------- delete and undo

  /** The item with id `id`. */
  function HasId(id: string): Item -> bool {
    (x: Item) => x.id == id
  }

  /** `items.find(item => item.id === id)`: the first item with that id. */
  function FindById(items: seq<Item>, id: string): (r: Option<Item>)
    ensures r.None? <==> forall x :: x in items ==> x.id != id
    ensures r.Some? ==> r.value.id == id
    ensures r.Some? ==> exists i :: 0 <= i < |items| && items[i] == r.value &&
                                    (forall j :: 0 <= j < i ==> items[j].id != id)
  {
    var i := Seqs.FirstWhere(items, HasId(id));
    if i < |items| then Some(items[i])
    else
      assert forall x :: x in items ==> x.id != id by {
        forall x | x in items
          ensures x.id != id
        {
          var k :| 0 <= k < |items| && items[k] == x;
          assert !HasId(id)(items[k]);
        }
      }
      None
  }

  /** Every item except those with id `id`. */
  function OtherId(id: string): Item -> bool {
    (x: Item) => x.id != id
  }

  /** The list after a delete confirmation and, when something was deleted, the
      snapshot the "Undo" action of its notification restores. */
  datatype Deletion = Deletion(items: seq<Item>, undo: Option<seq<Item>>)

  /** `confirmDelete` with `current` the item picked by `handleDeleteItem`:
      nothing happens without one; otherwise every item with its id is removed
      and the whole previous list is kept for undo. */
  function ConfirmDelete(items: seq<Item>, current: Option<Item>): (r: Deletion)
    ensures current.None? ==> r.items == items && r.undo.None?
    ensures current.Some? ==> r.undo == Some(items)
    ensures current.Some? ==> forall x :: x in r.items <==> x in items && x.id != current.value.id
    ensures current.Some? ==> Seqs.IsSubsequence(r.items, items)
  {
    if current.Some? then Deletion(Seqs.Filter(items, OtherId(current.value.id)), Some(items))
    else Deletion(items, None)
  }

  /** The "Undo" action: the list becomes the snapshot, whatever it is now. */
  function Undo(now: seq<Item>, snapshot: seq<Item>): seq<Item> {
    snapshot
  }

  /** Deleting through the table: look the id up, then confirm. */
  function DeleteById(items: seq<Item>, id: string): Deletion {
    ConfirmDelete(items, FindById(items, id))
  }

  /** A delete for an id no item has changes nothing and offers no undo. */
  lemma DeleteMissingId(items: seq<Item>, id: string)
    requires forall x :: x in items ==> x.id != id
    ensures DeleteById(items, id) == Deletion(items, None)
  {
  }

  /** A delete for an id in the list keeps, in order, exactly the items with
      another id, each as often as before; with unique ids that is one item less. */
  lemma DeleteFoundId(items: seq<Item>, id: string, x: Item)
    requires exists y :: y in items && y.id == id
    ensures multiset(DeleteById(items, id).items)[x] == if x.id != id then multiset(items)[x] else 0
    ensures Seqs.IsSubsequence(DeleteById(items, id).items, items)
    ensures UniqueIds(items) ==> |DeleteById(items, id).items| == |items| - 1
  {
    Seqs.FilterCount(items, OtherId(id), x);
    if UniqueIds(items) {
      RemoveUniqueId(items, id);
    }
  }

  /** Removing the id of exactly one item shortens the list by one. */
  lemma {:induction false} RemoveUniqueId(items: seq<Item>, id: string)
    requires UniqueIds(items)
    requires exists y :: y in items && y.id == id
    ensures |Seqs.Filter(items, OtherId(id))| == |items| - 1
    decreases |items|
  {
    Seqs.FilterCons(items[0], items[1..], OtherId(id));
    assert items == [items[0]] + items[1..];
    Seqs.PairwiseTail(items, DistinctIds);
    if items[0].id == id {
      forall y | y in items[1..]
        ensures OtherId(id)(y)
      {
        var m :| 0 <= m < |items[1..]| && items[1..][m] == y;
        assert DistinctIds(items[0], items[m + 1]);
      }
      Seqs.FilterAll(items[1..], OtherId(id));
    } else {
      RemoveUniqueId(items[1..], id);
    }
  }

  /** Deleting keeps the list well formed. */
  lemma DeleteKeepsWellFormed(items: seq<Item>, current: Option<Item>)
    requires WellFormed(items)
    ensures WellFormed(ConfirmDelete(items, current).items)
  {
    if current.Some? {
      Seqs.FilterPairwise(items, OtherId(current.value.id), DistinctIds);
      Seqs.FilterPairwise(items, OtherId(current.value.id), DistinctNames);
    }
  }

  /** Delete then Undo gives back exactly the list before the delete. */
  lemma DeleteThenUndo(items: seq<Item>, current: Item)
    ensures Undo(ConfirmDelete(items, Some(current)).items, ConfirmDelete(items, Some(current)).undo.value) == items
  {
  }

  /** Undo does not reinsert the deleted item into the current list: changes
      made after the delete (an add, say) are lost. */
  lemma UndoDropsLaterAdd(items: seq<Item>, current: Item, added: Item, freshId: string)
    requires forall x :: x in items ==> x.id != freshId
    ensures var d := ConfirmDelete(items, Some(current));
            var later := AddItem(d.items, added, freshId);
            added.(id := freshId) in later && added.(id := freshId) !in Undo(later, d.undo.value)
  {
  }

  /** Undo offers are not superseded: after a second delete, the first
      delete's Undo still works and brings back both deleted items. */
  lemma FirstUndoAfterSecondDelete(items: seq<Item>, a: Item, b: Item)
    ensures var first := ConfirmDelete(items, Some(a));
            var second := ConfirmDelete(first.items, Some(b));
            Undo(second.items, first.undo.value) == items
  {
  }

  /** The seed scenario: deleting "Printer" removes it, and Undo brings it back
      with its id and fields. */
  lemma PrinterDeleteUndo()
    ensures Seed[2] !in DeleteById(Seed, "3").items
    ensures Seed[2] in Undo(DeleteById(Seed, "3").items, DeleteById(Seed, "3").undo.value)
  {
    assert Seed[2].id == "3";
    assert Seed[2] in Seed;
  }

  // ---------------------------------------------------------------- the edit-form finding

  /** As written, re-submitting a seed item unchanged in the edit dialog fails:
      the seed items have no description, supplier or timestamp, and the schema
      requires all three. So `onSubmit` never runs and the list stays as it is. */
  lemma SeedEditRejectedAsWritten(timestamp: string, generatedId: string, freshId: string, stamp: string)
    ensures ValidateAsWritten(EditValues(Seed[0]), Seed, SchemaContext(Edit, Some(Seed[0]))).Err?
    ensures DescriptionRequired in ValidateAsWritten(EditValues(Seed[0]), Seed, SchemaContext(Edit, Some(Seed[0]))).error
    ensures Submit(Seed, EditValues(Seed[0]), Edit, Some(Seed[0]), timestamp, generatedId, freshId, stamp).Err?
  {
  }

  /** With absent free-text fields accepted, every item of a well-formed list can
      be re-submitted unchanged from the edit dialog: the corrected save flow
      keeps every entry's id and fields and only stamps the edited one. */
  lemma UnchangedEditAccepted(items: seq<Item>, x: Item, timestamp: string, generatedId: string,
                              freshId: string, stamp: string)
    requires WellFormed(items)
    requires x in items
    ensures Validate(EditValues(x), items, SchemaContext(Edit, Some(x))).Ok?
    ensures var r := SubmitCorrected(items, EditValues(x), Edit, Some(x), timestamp, generatedId, freshId, stamp);
            && r.Ok?
            && forall i :: 0 <= i < |items| ==>
                 r.value[i] == if items[i].id == x.id
                               then x.(description := Some(x.description.GetOr("")),
                                       supplier := Some(x.supplier.GetOr("")),
                                       lastUpdated := Some(stamp))
                               else items[i]
  {
    assert ValidItem(x);
    assert (x.quantity as real).Floor == x.quantity;
  }
}
