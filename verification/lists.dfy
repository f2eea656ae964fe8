/** A list container's item registry: items tagged with integer ids, kept
    in insertion order. Ids need not be unique; lookups and removals act on
    the first entry carrying the id. */
module Lists {
  import opened Options

  datatype Entry<T> = Entry(id: int, item: T)

  /** Some entry carries the id. */
  predicate Has<T>(items: seq<Entry<T>>, id: int) {
    exists j :: 0 <= j < |items| && items[j].id == id
  }

  /** The position of the first entry carrying the id. */
  function FirstIndex<T>(items: seq<Entry<T>>, id: int): (i: nat)
    requires Has(items, id)
    ensures i < |items| && items[i].id == id
    ensures forall j :: 0 <= j < i ==> items[j].id != id
  {
    if items[0].id == id then 0
    else
      assert Has(items[1..], id) by {
        var j :| 0 <= j < |items| && items[j].id == id;
        assert items[1..][j - 1].id == id;
      }
      1 + FirstIndex(items[1..], id)
  }

  /** Appends an entry; everything already there stays, in order. */
  function AddItem<T>(items: seq<Entry<T>>, item: T, id: int): (r: seq<Entry<T>>)
    ensures |r| == |items| + 1
    ensures r[..|items|] == items && r[|items|] == Entry(id, item)
  {
    items + [Entry(id, item)]
  }

  /** The item of the first entry with the id, or nothing. */
  function GetItem<T>(items: seq<Entry<T>>, id: int): (r: Option<T>)
    ensures r.None? <==> !Has(items, id)
    ensures r.Some? ==> exists j :: 0 <= j < |items| && items[j] == Entry(id, r.value) &&
                                   forall k :: 0 <= k < j ==> items[k].id != id
  {
    if Has(items, id) then
      var i := FirstIndex(items, id);
      assert items[i] == Entry(id, items[i].item);
      Some(items[i].item)
    else None
  }

  /** Drops the first entry with the id, keeping the rest in order; without
      such an entry the list is unchanged. */
  function RemoveItem<T>(items: seq<Entry<T>>, id: int): (r: seq<Entry<T>>)
    ensures !Has(items, id) ==> r == items
    ensures Has(items, id) ==>
      var i := FirstIndex(items, id);
      r == items[..i] + items[i + 1..]
  {
    if Has(items, id) then
      var i := FirstIndex(items, id);
      items[..i] + items[i + 1..]
    else items
  }

  /** The length drops by exactly one when, and only when, the id is
      present. */
  lemma RemoveShrinksIffPresent<T>(items: seq<Entry<T>>, id: int)
    ensures |RemoveItem(items, id)| == |items| - 1 <==> Has(items, id)
    ensures !Has(items, id) ==> |RemoveItem(items, id)| == |items|
  {
  }

  /** An item added under a fresh id is what a lookup of that id returns. */
  lemma AddThenGet<T>(items: seq<Entry<T>>, item: T, id: int)
    requires !Has(items, id)
    ensures GetItem(AddItem(items, item, id), id) == Some(item)
  {
    var r := AddItem(items, item, id);
    assert r[|items|].id == id;
    assert forall j :: 0 <= j < |items| ==> r[j] == items[j];
  }

  /** An item added under an id already present is shadowed: lookups keep
      returning the earlier entry. */
  lemma AddDuplicateShadowed<T>(items: seq<Entry<T>>, item: T, id: int)
    requires Has(items, id)
    ensures GetItem(AddItem(items, item, id), id) == GetItem(items, id)
  {
    var r := AddItem(items, item, id);
    var i := FirstIndex(items, id);
    assert forall j :: 0 <= j < |items| ==> r[j] == items[j];
    assert r[i].id == id;
  }

  /** Removing right after adding under a fresh id restores the list. */
  lemma AddThenRemove<T>(items: seq<Entry<T>>, item: T, id: int)
    requires !Has(items, id)
    ensures RemoveItem(AddItem(items, item, id), id) == items
  {
    var r := AddItem(items, item, id);
    assert r[|items|].id == id;
    assert forall j :: 0 <= j < |items| ==> r[j] == items[j];
    assert FirstIndex(r, id) == |items|;
    assert r[..|items|] == items;
  }

  /** Removing one id leaves every other id's lookup as it was. */
  lemma RemoveKeepsOthers<T>(items: seq<Entry<T>>, id: int, other: int)
    requires other != id
    ensures GetItem(RemoveItem(items, id), other) == GetItem(items, other)
  {
    if Has(items, id) {
      var i := FirstIndex(items, id);
      if Has(items, other) {
        DropKeepsFirst(items, i, other);
      } else {
        DropKeepsAbsent(items, i, other);
      }
    }
  }

  /** Dropping position `i` shifts every later entry down by one. */
  lemma DropAt<T>(items: seq<Entry<T>>, i: nat)
    requires i < |items|
    ensures var r := items[..i] + items[i + 1..];
      |r| == |items| - 1 &&
      forall j :: 0 <= j < |r| ==> r[j] == items[if j < i then j else j + 1]
  {
  }

  /** Dropping an entry of another id keeps the first match of `other`,
      one place earlier when it came after the dropped entry. */
  lemma DropKeepsFirst<T>(items: seq<Entry<T>>, i: nat, other: int)
    requires i < |items| && items[i].id != other && Has(items, other)
    ensures GetItem(items[..i] + items[i + 1..], other) == GetItem(items, other)
  {
    var r := items[..i] + items[i + 1..];
    DropAt(items, i);
    var k := FirstIndex(items, other);
    var kr := if k < i then k else k - 1;
    assert r[kr] == items[k];
    assert forall j :: 0 <= j < kr ==> r[j].id != other;
    FirstIndexIs(r, other, kr);
  }

  /** Dropping an entry never makes an absent id present. */
  lemma DropKeepsAbsent<T>(items: seq<Entry<T>>, i: nat, other: int)
    requires i < |items| && !Has(items, other)
    ensures !Has(items[..i] + items[i + 1..], other)
  {
    DropAt(items, i);
  }

  /** The first match is the only position satisfying the first-match
      conditions. */
  lemma FirstIndexIs<T>(items: seq<Entry<T>>, id: int, k: nat)
    requires k < |items| && items[k].id == id
    requires forall j :: 0 <= j < k ==> items[j].id != id
    ensures Has(items, id) && FirstIndex(items, id) == k
  {
  }

  /** The source's lookup loop: scans from the front and returns at the
      first match. */
  method GetItemScan<T>(items: seq<Entry<T>>, id: int) returns (r: Option<T>)
    ensures r == GetItem(items, id)
  {
    var i := 0;
    while i < |items|
      invariant 0 <= i <= |items|
      invariant forall j :: 0 <= j < i ==> items[j].id != id
    {
      if items[i].id == id {
        assert FirstIndex(items, id) == i;
        return Some(items[i].item);
      }
      i := i + 1;
    }
    return None;
  }

  /** The source's removal loop: erases at the first match and stops. */
  method RemoveItemScan<T>(items: seq<Entry<T>>, id: int) returns (r: seq<Entry<T>>)
    ensures r == RemoveItem(items, id)
  {
    var i := 0;
    while i < |items|
      invariant 0 <= i <= |items|
      invariant forall j :: 0 <= j < i ==> items[j].id != id
    {
      if items[i].id == id {
        assert FirstIndex(items, id) == i;
        return items[..i] + items[i + 1..];
      }
      i := i + 1;
    }
    return items;
  }
}
