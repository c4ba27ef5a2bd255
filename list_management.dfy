/** The editor of a list-valued content element (for instance the contact page's
    locations): items are deleted, replaced or appended in memory, and the whole list
    is then written back, serialised, as one `site_content` row. */
module ListManagement {
  import opened Wrappers
  import opened Sequences
  import opened Backend

  /** An item's `id`: absent, or a number (`Date.now()` for items added here). */
  datatype ItemId = NoId | Id(n: int)

  /** JavaScript truthiness of an id: present and not 0. */
  predicate Truthy(id: ItemId)
  {
    id.Id? && id.n != 0
  }

  /** One list item: its id and its other fields, by name. */
  datatype Item = Item(id: ItemId, fields: map<string, string>)

  /** `handleDelete`: every item whose id equals the target's id is dropped. */
  function Delete(list: seq<Item>, target: Item): seq<Item>
  {
    Filter(list, (item: Item) => item.id != target.id)
  }

  /** `handleSave`. An item with a truthy id keeps the length, is put at exactly the
      positions that held its id, and leaves every other position as it was. Any
      other item is appended, exactly once, carrying its fields and the timestamp
      `now` as its id, after the existing items, which stay as they were. */
  function Save(list: seq<Item>, newItem: Item, now: int): (r: seq<Item>)
    ensures Truthy(newItem.id) ==> |r| == |list|
    ensures Truthy(newItem.id) ==> forall i :: 0 <= i < |list| ==>
      r[i] == if list[i].id == newItem.id then newItem else list[i]
    ensures !Truthy(newItem.id) ==> |r| == |list| + 1 && r[..|list|] == list
    ensures !Truthy(newItem.id) ==> r[|list|] == Item(Id(now), newItem.fields)
  {
    if Truthy(newItem.id) then
      seq(|list|, i requires 0 <= i < |list| => if list[i].id == newItem.id then newItem else list[i])
    else list + [newItem.(id := Id(now))]
  }

  /** Deleting keeps exactly the items with another id, in their original order, and
      each of them as often as before. */
  lemma DeleteSpec(list: seq<Item>, target: Item)
    ensures IsSubsequence(Delete(list, target), list)
    ensures forall x :: x in Delete(list, target) <==> x in list && x.id != target.id
    ensures forall x: Item :: x.id != target.id ==> multiset(Delete(list, target))[x] == multiset(list)[x]
  {
    var keep := (item: Item) => item.id != target.id;
    FilterIsSubsequence(list, keep);
    forall x ensures x in Delete(list, target) <==> x in list && x.id != target.id {
      FilterMembership(list, keep, x);
    }
    forall x: Item | x.id != target.id ensures multiset(Delete(list, target))[x] == multiset(list)[x] {
      FilterCount(list, keep, x);
    }
  }

  /** Deleting an id that no item has leaves the list as it was. */
  lemma DeleteAbsent(list: seq<Item>, target: Item)
    requires forall i :: 0 <= i < |list| ==> list[i].id != target.id
    ensures Delete(list, target) == list
  {
    FilterKeepsEverything(list, (item: Item) => item.id != target.id);
  }

  /** Saving the same item with a truthy id twice is saving it once. */
  lemma SaveIdempotent(list: seq<Item>, newItem: Item, now: int, later: int)
    requires Truthy(newItem.id)
    ensures Save(Save(list, newItem, now), newItem, later) == Save(list, newItem, now)
  {
    var once := Save(list, newItem, now);
    var twice := Save(once, newItem, later);
    assert |twice| == |once|;
    forall i | 0 <= i < |once| ensures twice[i] == once[i] {
    }
  }

  /** Adding an item under a fresh timestamp and then deleting it gives the list back. */
  lemma AddThenDelete(list: seq<Item>, newItem: Item, now: int)
    requires !Truthy(newItem.id)
    requires forall i :: 0 <= i < |list| ==> list[i].id != Id(now)
    ensures var added := Save(list, newItem, now);
      Delete(added, added[|added| - 1]) == list
  {
    var added := Save(list, newItem, now);
    var last := added[|added| - 1];
    var keep := (item: Item) => item.id != last.id;
    FilterConcat(list, [last], keep);
    FilterKeepsEverything(list, keep);
    assert Filter([last], keep) == [];
  }

  /** The values a new-item form starts from: every configured field set to ''. */
  function NewItemDefaults(fieldNames: seq<string>): (m: map<string, string>)
    ensures m.Keys == set f | f in fieldNames
    ensures forall f :: f in m ==> m[f] == ""
  {
    map f | f in fieldNames :: ""
  }

  /** The dialog's `onSubmit`: `{ ...item, ...values }`, so the edited item keeps its
      id and every field not in the form. */
  function Merge(current: Option<Item>, values: map<string, string>): (r: Item)
    ensures r.id == if current.Some? then current.value.id else NoId
    ensures forall f :: f in values ==> f in r.fields && r.fields[f] == values[f]
    ensures current.Some? ==> forall f :: f in current.value.fields && f !in values ==>
      f in r.fields && r.fields[f] == current.value.fields[f]
    ensures forall f :: f in r.fields ==> f in values || (current.Some? && f in current.value.fields)
  {
    match current
    case None => Item(NoId, values)
    case Some(item) => Item(item.id, item.fields + values)
  }

  /** The state of one list editor. */
  class ListManagementForm {
    const section: string
    const element: string
    var isDialogOpen: bool
    var currentItem: Option<Item>

    constructor (section: string, element: string)
      ensures this.section == section && this.element == element
      ensures !isDialogOpen && currentItem == None
    {
      this.section := section;
      this.element := element;
      isDialogOpen := false;
      currentItem := None;
    }

    /** `openDialog`: editing `item`, or a new item when it is `None`. */
    method OpenDialog(item: Option<Item>)
      modifies this
      ensures currentItem == item && isDialogOpen
    {
      currentItem := item;
      isDialogOpen := true;
    }

    /** The mutation: `updateContent` upserts the serialised list as the one row
        of (section, element), and the dialog closes only when that succeeds. */
    method Write(store: Store, list: seq<Item>, encode: seq<Item> -> string, reply: Option<string>) returns (err: Option<string>)
      modifies this, store
      ensures err == reply
      ensures store.Tables() == old(store.Tables()).(siteContent :=
        if reply.None? then old(store.siteContent)[ContentKey(section, element) := encode(list)] else old(store.siteContent))
      ensures store.calls == old(store.calls) + [ContentUpsert(ContentKey(section, element))]
      ensures store.nextProductId == old(store.nextProductId)
      ensures isDialogOpen == (old(isDialogOpen) && reply.Some?)
      ensures currentItem == old(currentItem)
    {
      err := store.UpsertContent(ContentKey(section, element), encode(list), reply);
      if err.None? {
        isDialogOpen := false;
      }
    }

    /** `handleDelete`: writes the list without the target's id. */
    method HandleDelete(store: Store, list: seq<Item>, target: Item, encode: seq<Item> -> string, reply: Option<string>)
      returns (err: Option<string>)
      modifies this, store
      ensures err == reply
      ensures store.Tables() == old(store.Tables()).(siteContent :=
        if reply.None? then old(store.siteContent)[ContentKey(section, element) := encode(Delete(list, target))] else old(store.siteContent))
      ensures store.calls == old(store.calls) + [ContentUpsert(ContentKey(section, element))]
      ensures store.nextProductId == old(store.nextProductId)
      ensures isDialogOpen == (old(isDialogOpen) && reply.Some?)
      ensures currentItem == old(currentItem)
    {
      err := Write(store, Delete(list, target), encode, reply);
    }

    /** The dialog's submit followed by `handleSave`: the current item merged with the
        form values is saved into the list, and the list is written. */
    method Submit(store: Store, list: seq<Item>, values: map<string, string>, now: int, encode: seq<Item> -> string, reply: Option<string>)
      returns (err: Option<string>)
      modifies this, store
      ensures err == reply
      ensures store.Tables() == old(store.Tables()).(siteContent :=
        if reply.None? then old(store.siteContent)[ContentKey(section, element) := encode(Save(list, Merge(old(currentItem), values), now))]
        else old(store.siteContent))
      ensures store.calls == old(store.calls) + [ContentUpsert(ContentKey(section, element))]
      ensures store.nextProductId == old(store.nextProductId)
      ensures isDialogOpen == (old(isDialogOpen) && reply.Some?)
      ensures currentItem == old(currentItem)
    {
      var saved := Save(list, Merge(currentItem, values), now);
      err := Write(store, saved, encode, reply);
    }
  }
}
