/**
 * `LifelistStore`: todo items, events and reminders kept in a JavaScript `Map` from id to
 * item.
 *
 * The `Map` is an insertion-ordered list of entries with distinct keys: setting an existing
 * key replaces its value in place, setting a new key appends it, deleting removes the entry.
 * `Date` values are instants in milliseconds; the id generator and the clock are parameters.
 */
module Store {
  import opened Wrappers
  import opened Time

  datatype ItemType = Todo | Event | Reminder
  datatype ItemStatus = Pending | InProgress | Completed | Cancelled
  datatype Priority = Low | Medium | High | Urgent
  datatype RecurFrequency = Daily | Weekly | Monthly | Yearly

  /** `RecurrencePattern`: stored and returned, never interpreted by the store. */
  datatype Recurrence = Recurrence(
    frequency: RecurFrequency,
    interval: real,
    endDate: Option<Instant>,
    maxOccurrences: Option<real>)

  /** `LifelistItem`. */
  datatype Item = Item(
    id: string,
    title: string,
    description: Option<string>,
    itemType: ItemType,
    status: ItemStatus,
    priority: Priority,
    created: Instant,
    modified: Instant,
    dueDate: Option<Instant>,
    startTime: Option<Instant>,
    endTime: Option<Instant>,
    recurrence: Option<Recurrence>,
    tags: seq<string>)

  /** The argument of `addItem`: an item without id and timestamps, whose tags may be missing. */
  datatype Draft = Draft(
    title: string,
    description: Option<string>,
    itemType: ItemType,
    status: ItemStatus,
    priority: Priority,
    dueDate: Option<Instant>,
    startTime: Option<Instant>,
    endTime: Option<Instant>,
    recurrence: Option<Recurrence>,
    tags: Option<seq<string>>)

  /**
   * The argument of `updateItem`: any subset of the fields.  `Some` means the key is
   * present; an optional field may be present without a value, which clears it.
   */
  datatype Patch = Patch(
    id: Option<string>,
    title: Option<string>,
    description: Option<Option<string>>,
    itemType: Option<ItemType>,
    status: Option<ItemStatus>,
    priority: Option<Priority>,
    created: Option<Instant>,
    modified: Option<Instant>,
    dueDate: Option<Option<Instant>>,
    startTime: Option<Option<Instant>>,
    endTime: Option<Option<Instant>>,
    recurrence: Option<Option<Recurrence>>,
    tags: Option<seq<string>>)

  const NoChange: Patch := Patch(None, None, None, None, None, None, None, None, None, None, None, None, None)

  datatype Entry = Entry(key: string, item: Item)

  datatype Store = Store(entries: seq<Entry>)

  const Empty: Store := Store([])

  /** A `Map` never holds a key twice. */
  predicate Valid(s: Store)
  {
    forall i, j | 0 <= i < j < |s.entries| :: s.entries[i].key != s.entries[j].key
  }

  // ---------------------------------------------------------------------------------------
  // The Map operations

  /** `Map.get`. */
  function Lookup(es: seq<Entry>, key: string): (r: Option<Item>)
    ensures r.None? <==> forall i | 0 <= i < |es| :: es[i].key != key
  {
    if |es| == 0 then None
    else if es[0].key == key then Some(es[0].item)
    else Lookup(es[1..], key)
  }

  /** `Map.set`: replace in place when the key is present, append otherwise. */
  function Put(es: seq<Entry>, key: string, item: Item): seq<Entry>
  {
    if |es| == 0 then [Entry(key, item)]
    else if es[0].key == key then [Entry(key, item)] + es[1..]
    else [es[0]] + Put(es[1..], key, item)
  }

  /** `Map.delete`. */
  function Remove(es: seq<Entry>, key: string): seq<Entry>
  {
    if |es| == 0 then []
    else (if es[0].key == key then [] else [es[0]]) + Remove(es[1..], key)
  }

  /** After a set, the key holds the new item and every other key what it held before. */
  lemma {:induction false} PutLookup(es: seq<Entry>, key: string, item: Item, other: string)
    ensures Lookup(Put(es, key, item), other) == if other == key then Some(item) else Lookup(es, other)
  {
    if |es| > 0 && es[0].key != key {
      PutLookup(es[1..], key, item, other);
      assert Put(es, key, item)[1..] == Put(es[1..], key, item);
    }
  }

  /** A set of a new key appends it; a set of a present key keeps every position and key. */
  lemma {:induction false} PutPosition(es: seq<Entry>, key: string, item: Item)
    ensures Lookup(es, key).None? ==> Put(es, key, item) == es + [Entry(key, item)]
    ensures Lookup(es, key).Some? ==>
      |Put(es, key, item)| == |es| && forall i | 0 <= i < |es| :: Put(es, key, item)[i].key == es[i].key
  {
    if |es| > 0 && es[0].key != key {
      PutPosition(es[1..], key, item);
      assert es == [es[0]] + es[1..];
    }
  }

  /** After a delete the key is gone and every other key holds what it held before. */
  lemma {:induction false} RemoveLookup(es: seq<Entry>, key: string, other: string)
    ensures Lookup(Remove(es, key), other) == if other == key then None else Lookup(es, other)
  {
    if |es| > 0 {
      RemoveLookup(es[1..], key, other);
      var rest := Remove(es[1..], key);
      if es[0].key == key {
        assert Remove(es, key) == rest;
      } else {
        assert Remove(es, key) == [es[0]] + rest;
        assert ([es[0]] + rest)[1..] == rest;
      }
    }
  }

  /** Deleting keeps the other entries, in their order: exactly the entries with another key survive. */
  lemma {:induction false} RemoveKeeps(es: seq<Entry>, key: string)
    ensures forall x :: multiset(Remove(es, key))[x] == if x.key == key then 0 else multiset(es)[x]
  {
    if |es| > 0 {
      RemoveKeeps(es[1..], key);
      assert es == [es[0]] + es[1..];
    }
  }

  /** Setting and deleting keep keys distinct. */
  lemma {:induction false} OperationsKeepValid(es: seq<Entry>, key: string, item: Item)
    requires Valid(Store(es))
    ensures Valid(Store(Put(es, key, item)))
    ensures Valid(Store(Remove(es, key)))
  {
    PutPosition(es, key, item);
    var p := Put(es, key, item);
    if Lookup(es, key).None? {
      assert forall i | 0 <= i < |es| :: p[i] == es[i];
    }
    RemoveValid(es, key);
  }

  lemma {:induction false} RemoveValid(es: seq<Entry>, key: string)
    requires Valid(Store(es))
    ensures Valid(Store(Remove(es, key)))
    ensures forall i | 0 <= i < |Remove(es, key)| :: Remove(es, key)[i] in es
  {
    if |es| > 0 {
      RemoveValid(es[1..], key);
      assert es == [es[0]] + es[1..];
      var rest := Remove(es[1..], key);
      assert forall i | 0 <= i < |rest| :: rest[i].key != es[0].key by {
        forall i | 0 <= i < |rest| ensures rest[i].key != es[0].key {
          assert rest[i] in es[1..];
        }
      }
    }
  }

  /** With distinct keys, each entry is what its key looks up. */
  lemma {:induction false} LookupAt(es: seq<Entry>, i: int)
    requires Valid(Store(es)) && 0 <= i < |es|
    ensures Lookup(es, es[i].key) == Some(es[i].item)
  {
    if i > 0 {
      LookupAt(es[1..], i - 1);
    }
  }

  /** Setting a new key and deleting it again restores the map, order included. */
  lemma {:induction false} PutThenRemove(es: seq<Entry>, key: string, item: Item)
    requires Lookup(es, key).None?
    ensures Remove(Put(es, key, item), key) == es
  {
    if |es| > 0 {
      PutThenRemove(es[1..], key, item);
      assert es == [es[0]] + es[1..];
    }
  }

  // ---------------------------------------------------------------------------------------
  // The store operations

  /** The item with the present fields of a patch laid over it; absent fields keep their value. */
  function Overlay(i: Item, p: Patch): Item
  {
    Item(
      Pick(p.id, i.id), Pick(p.title, i.title), Pick(p.description, i.description),
      Pick(p.itemType, i.itemType), Pick(p.status, i.status), Pick(p.priority, i.priority),
      Pick(p.created, i.created), Pick(p.modified, i.modified), Pick(p.dueDate, i.dueDate),
      Pick(p.startTime, i.startTime), Pick(p.endTime, i.endTime), Pick(p.recurrence, i.recurrence),
      Pick(p.tags, i.tags))
  }

  function Pick<T>(present: Option<T>, current: T): T
  {
    if present.Some? then present.value else current
  }

  /** An empty patch changes nothing, and laying the same patch twice is laying it once. */
  lemma OverlayLaws(i: Item, p: Patch)
    ensures Overlay(i, NoChange) == i
    ensures Overlay(Overlay(i, p), p) == Overlay(i, p)
  {
  }

  datatype Added = Added(store: Store, item: Item)

  /** `addItem(data)` with `id` from the id generator and `now` from the clock. */
  function AddItem(s: Store, d: Draft, id: string, now: Instant): Added
  {
    var item := Item(id, d.title, d.description, d.itemType, d.status, d.priority, now, now,
                     d.dueDate, d.startTime, d.endTime, d.recurrence,
                     if d.tags.Some? then d.tags.value else []);
    Added(Store(Put(s.entries, id, item)), item)
  }

  /**
   * The new item carries the generated id, is created and modified at the same instant,
   * copies the data, defaults missing tags to none, and is stored under its id; a fresh id
   * is appended after every existing item, and nothing else changes.
   */
  lemma AddItemSpec(s: Store, d: Draft, id: string, now: Instant)
    ensures var r := AddItem(s, d, id, now);
      && r.item.id == id && r.item.created == now && r.item.modified == now
      && r.item.title == d.title && r.item.description == d.description
      && r.item.itemType == d.itemType && r.item.status == d.status && r.item.priority == d.priority
      && r.item.dueDate == d.dueDate && r.item.startTime == d.startTime && r.item.endTime == d.endTime
      && r.item.recurrence == d.recurrence
      && r.item.tags == (if d.tags.Some? then d.tags.value else [])
      && GetItem(r.store, id) == Some(r.item)
      && (forall k | k != id :: GetItem(r.store, k) == GetItem(s, k))
      && (GetItem(s, id).None? ==> GetAllItems(r.store) == GetAllItems(s) + [r.item])
      && (Valid(s) ==> Valid(r.store))
  {
    var r := AddItem(s, d, id, now);
    forall k ensures GetItem(r.store, k) == if k == id then Some(r.item) else GetItem(s, k) {
      PutLookup(s.entries, id, r.item, k);
    }
    PutPosition(s.entries, id, r.item);
    if Valid(s) {
      OperationsKeepValid(s.entries, id, r.item);
    }
  }

  datatype Updated = Updated(store: Store, item: Option<Item>)

  /** `updateItem(id, updates)` with `now` from the clock. */
  function UpdateItem(s: Store, id: string, p: Patch, now: Instant): Updated
  {
    match Lookup(s.entries, id)
    case None => Updated(s, None)
    case Some(i) =>
      var u := Overlay(i, p).(modified := now);
      Updated(Store(Put(s.entries, id, u)), Some(u))
  }

  /**
   * An unknown id gives no item and leaves the store as it was.  A known id gives the stored
   * item with the patch laid over it and the modification time set to `now`, stored under
   * the same key at the same position; every other key is unchanged.
   */
  lemma UpdateItemSpec(s: Store, id: string, p: Patch, now: Instant)
    ensures var r := UpdateItem(s, id, p, now);
      && (r.item.None? <==> GetItem(s, id).None?)
      && (r.item.None? ==> r.store == s)
      && (r.item.Some? ==>
            && r.item.value == Overlay(GetItem(s, id).value, p).(modified := now)
            && GetItem(r.store, id) == r.item
            && (forall k | k != id :: GetItem(r.store, k) == GetItem(s, k))
            && |GetAllItems(r.store)| == |GetAllItems(s)|
            && (forall j | 0 <= j < |s.entries| :: r.store.entries[j].key == s.entries[j].key))
      && (Valid(s) ==> Valid(r.store))
  {
    var r := UpdateItem(s, id, p, now);
    if r.item.Some? {
      forall k ensures GetItem(r.store, k) == if k == id then r.item else GetItem(s, k) {
        PutLookup(s.entries, id, r.item.value, k);
      }
      PutPosition(s.entries, id, r.item.value);
      if Valid(s) {
        OperationsKeepValid(s.entries, id, r.item.value);
      }
    }
  }

  /** Repeating an update at the same instant changes nothing more. */
  lemma UpdateItemRepeat(s: Store, id: string, p: Patch, now: Instant)
    ensures var r := UpdateItem(s, id, p, now);
      UpdateItem(r.store, id, p, now) == r
  {
    var r := UpdateItem(s, id, p, now);
    if r.item.Some? {
      PutLookup(s.entries, id, r.item.value, id);
      PutTwice(s.entries, id, r.item.value);
      OverlayLaws(GetItem(s, id).value, p);
    }
  }

  /** Setting a key to the item it already holds changes nothing. */
  lemma {:induction false} PutTwice(es: seq<Entry>, key: string, item: Item)
    ensures Put(Put(es, key, item), key, item) == Put(es, key, item)
  {
    if |es| > 0 && es[0].key != key {
      PutTwice(es[1..], key, item);
    }
  }

  datatype Deleted = Deleted(store: Store, removed: bool)

  /** `deleteItem(id)`: whether there was an item under `id`. */
  function DeleteItem(s: Store, id: string): Deleted
  {
    Deleted(Store(Remove(s.entries, id)), Lookup(s.entries, id).Some?)
  }

  /** The answer says whether the id was present; afterwards it is absent and every other key is unchanged. */
  lemma DeleteItemSpec(s: Store, id: string)
    ensures var r := DeleteItem(s, id);
      && r.removed == GetItem(s, id).Some?
      && GetItem(r.store, id).None?
      && (forall k | k != id :: GetItem(r.store, k) == GetItem(s, k))
      && (forall x :: multiset(r.store.entries)[x] == if x.key == id then 0 else multiset(s.entries)[x])
      && (Valid(s) ==> Valid(r.store))
      && (!r.removed ==> r.store == s)
  {
    var r := DeleteItem(s, id);
    forall k ensures GetItem(r.store, k) == if k == id then None else GetItem(s, k) {
      RemoveLookup(s.entries, id, k);
    }
    RemoveKeeps(s.entries, id);
    if Valid(s) {
      RemoveValid(s.entries, id);
    }
    if !r.removed {
      RemoveAbsent(s.entries, id);
    }
  }

  lemma {:induction false} RemoveAbsent(es: seq<Entry>, key: string)
    requires Lookup(es, key).None?
    ensures Remove(es, key) == es
  {
    if |es| > 0 {
      RemoveAbsent(es[1..], key);
      assert es == [es[0]] + es[1..];
    }
  }

  /** Adding an item under a fresh id and deleting it again gives back the store. */
  lemma AddThenDelete(s: Store, d: Draft, id: string, now: Instant)
    requires GetItem(s, id).None?
    ensures DeleteItem(AddItem(s, d, id, now).store, id) == Deleted(s, true)
  {
    var item := AddItem(s, d, id, now).item;
    PutThenRemove(s.entries, id, item);
    PutLookup(s.entries, id, item, id);
  }

  /** `getItem(id)`. */
  function GetItem(s: Store, id: string): Option<Item>
  {
    Lookup(s.entries, id)
  }

  /** `getAllItems()`: the items in insertion order. */
  function GetAllItems(s: Store): seq<Item>
  {
    seq(|s.entries|, i requires 0 <= i < |s.entries| => s.entries[i].item)
  }

  /** Every item that `getItem` can return is listed, and every listed item is returned by `getItem` for its key. */
  lemma GetAllItemsSpec(s: Store)
    requires Valid(s)
    ensures forall k | GetItem(s, k).Some? :: GetItem(s, k).value in GetAllItems(s)
    ensures forall j | 0 <= j < |GetAllItems(s)| :: GetItem(s, s.entries[j].key) == Some(GetAllItems(s)[j])
  {
    forall k | GetItem(s, k).Some? ensures GetItem(s, k).value in GetAllItems(s) {
      var j := FindKey(s.entries, k);
      LookupAt(s.entries, j);
      assert GetAllItems(s)[j] == s.entries[j].item;
    }
    forall j | 0 <= j < |GetAllItems(s)| ensures GetItem(s, s.entries[j].key) == Some(GetAllItems(s)[j]) {
      LookupAt(s.entries, j);
    }
  }

  /** The position of a key that is present. */
  lemma {:induction false} FindKey(es: seq<Entry>, key: string) returns (j: int)
    requires Lookup(es, key).Some?
    ensures 0 <= j < |es| && es[j].key == key
  {
    if es[0].key == key {
      j := 0;
    } else {
      j := FindKey(es[1..], key);
      j := j + 1;
    }
  }

  // ---------------------------------------------------------------------------------------
  // The calendar view

  /** The `getItemsByDateRange` test: due in the range, or an event with both ends touching or covering it. */
  predicate InRange(i: Item, start: Instant, end: Instant)
  {
    || (i.dueDate.Some? && start <= i.dueDate.value <= end)
    || (i.startTime.Some? && i.endTime.Some? &&
        (|| start <= i.startTime.value <= end
         || start <= i.endTime.value <= end
         || (i.startTime.value <= start && i.endTime.value >= end)))
  }

  function FilterInRange(items: seq<Item>, start: Instant, end: Instant): seq<Item>
  {
    if |items| == 0 then []
    else (if InRange(items[0], start, end) then [items[0]] else []) + FilterInRange(items[1..], start, end)
  }

  /** `getItemsByDateRange(start, end)`: the items in range, in insertion order. */
  function GetItemsByDateRange(s: Store, start: Instant, end: Instant): seq<Item>
  {
    FilterInRange(GetAllItems(s), start, end)
  }

  /** The filter keeps every occurrence of an item in range and drops every other item. */
  lemma {:induction false} FilterCounts(items: seq<Item>, start: Instant, end: Instant)
    ensures forall x :: multiset(FilterInRange(items, start, end))[x] ==
                        (if InRange(x, start, end) then multiset(items)[x] else 0)
  {
    if |items| > 0 {
      FilterCounts(items[1..], start, end);
      assert items == [items[0]] + items[1..];
    }
  }

  /** The filter keeps the items' relative order: filtering a concatenation concatenates the filtered parts. */
  lemma {:induction false} FilterAppend(a: seq<Item>, b: seq<Item>, start: Instant, end: Instant)
    ensures FilterInRange(a + b, start, end) == FilterInRange(a, start, end) + FilterInRange(b, start, end)
  {
    if |a| > 0 {
      FilterAppend(a[1..], b, start, end);
      assert (a + b)[0] == a[0];
      assert (a + b)[1..] == a[1..] + b;
      var head := if InRange(a[0], start, end) then [a[0]] else [];
      assert FilterInRange(a + b, start, end) == head + FilterInRange(a[1..] + b, start, end);
      assert FilterInRange(a, start, end) == head + FilterInRange(a[1..], start, end);
    } else {
      assert a + b == b;
    }
  }

  /** An item is listed for the range exactly when it is stored and passes the range test. */
  lemma GetItemsByDateRangeSpec(s: Store, start: Instant, end: Instant)
    ensures forall x :: x in GetItemsByDateRange(s, start, end) <==> x in GetAllItems(s) && InRange(x, start, end)
    ensures multiset(GetItemsByDateRange(s, start, end)) <= multiset(GetAllItems(s))
  {
    FilterCounts(GetAllItems(s), start, end);
  }

  /**
   * For an event whose start is not after its end, and a range whose start is not after its
   * end, the three event tests together say that the two closed intervals intersect.
   */
  lemma EventOverlap(i: Item, start: Instant, end: Instant)
    requires i.startTime.Some? && i.endTime.Some? && i.startTime.value <= i.endTime.value && start <= end
    ensures InRange(i, start, end) <==>
      || (i.dueDate.Some? && start <= i.dueDate.value <= end)
      || (i.startTime.value <= end && start <= i.endTime.value)
  {
  }

  /** An item with a start but no end is listed only through its due date. */
  lemma StartWithoutEnd(i: Item, start: Instant, end: Instant)
    requires i.startTime.Some? && i.endTime.None?
    ensures InRange(i, start, end) <==> i.dueDate.Some? && start <= i.dueDate.value <= end
  {
  }
}
