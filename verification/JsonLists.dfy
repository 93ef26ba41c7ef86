/**
  Child lists of JSON items (runtime/cJSON.c): doubly linked, relinked in place, with the
  twist that the first child's `prev` is the last child, so that appending needs no walk.

  A list is described by the sequence of its items; every operation is proved to perform
  the matching operation on that sequence and to restore all the links.
*/
module JsonLists {

  class Item {
    var next: Item?
    var prev: Item?
    var child: Item?

    constructor ()
      ensures Detached() && child == null
    {
      next, prev, child := null, null, null;
    }

    predicate Detached()
      reads this
    {
      next == null && prev == null
    }

    // The links of `items[i]` in a list of all `items`.
    ghost predicate LinksOk(items: seq<Item>, i: nat)
      requires i < |items|
      reads items[i]
    {
      && items[i].next == (if i + 1 < |items| then items[i + 1] else null)
      && items[i].prev == (if i > 0 then items[i - 1] else items[|items| - 1])
    }

    /** This item's children are exactly `items`, in order: the next chain visits them and
        ends in null, prev inverts next, and the first item's prev is the last item. */
    ghost predicate HasChildren(items: seq<Item>)
      reads this, items
    {
      && this !in items
      && (forall i, j :: 0 <= i < j < |items| ==> items[i] != items[j])
      && child == (if items == [] then null else items[0])
      && (forall i :: 0 <= i < |items| ==> LinksOk(items, i))
    }

    method GetItem(index: nat, ghost items: seq<Item>) returns (r: Item?)
      requires HasChildren(items)
      ensures r == if index < |items| then items[index] else null
    {
      r := child;
      var left := index;
      ghost var at := 0;
      while r != null && left > 0
        invariant 0 <= left && 0 <= at <= |items| && left + at == index
        invariant r == if at < |items| then items[at] else null
        decreases left
      {
        assert LinksOk(items, at);
        left := left - 1;
        r := r.next;
        at := at + 1;
      }
    }

    method GetSize(ghost items: seq<Item>) returns (size: nat)
      requires HasChildren(items)
      ensures size == |items|
    {
      size := 0;
      var c := child;
      while c != null
        invariant size <= |items|
        invariant c == if size < |items| then items[size] else null
        decreases |items| - size
      {
        assert LinksOk(items, size);
        size := size + 1;
        c := c.next;
      }
    }

    /** add_item_to_array: append. Refused for the item itself. The new item's `next` is only
        cleared when the list was empty, so the append is sound exactly for an item that
        points nowhere, or into an empty list. */
    method AddItem(item: Item, ghost items: seq<Item>) returns (ok: bool)
      requires HasChildren(items) && item !in items
      modifies this`child, items, item
      ensures ok == (item != this)
      ensures !ok ==> HasChildren(items) && unchanged(this) && unchanged(items)
      ensures ok ==> (HasChildren(items + [item]) <==> items == [] || old(item.next) == null)
    {
      if this == item { return false; }
      ok := true;
      ghost var after := items + [item];
      if child == null {
        child := item;
        item.prev := item;
        item.next := null;
      } else {
        assert LinksOk(items, 0) && LinksOk(items, |items| - 1);
        var last := child.prev;
        if last != null {
          last.next := item;
          item.prev := last;
          child.prev := item;
        }
      }
      forall i | 0 <= i < |items| ensures LinksOk(after, i) {
        assert old(LinksOk(items, i));
      }
      assert LinksOk(after, |items|) <==> items == [] || old(item.next) == null;
    }

    /** cJSON_DetachItemViaPointer on a member: everything else stays linked, and the item
        comes back with no links. */
    method Detach(item: Item, ghost items: seq<Item>, ghost at: nat) returns (r: Item?)
      requires HasChildren(items) && at < |items| && items[at] == item
      modifies this`child, items
      ensures r == item && item.Detached()
      ensures HasChildren(items[..at] + items[at + 1..])
    {
      assert LinksOk(items, at);
      ghost var after := items[..at] + items[at + 1..];
      if item != child && item.prev == null { return null; }
      if item != child {
        assert LinksOk(items, at - 1);
        item.prev.next := item.next;
      }
      if item.next != null { item.next.prev := item.prev; }
      if item == child {
        child := item.next;
      } else if item.next == null {
        child.prev := item.prev;
      }
      item.prev, item.next := null, null;
      forall i | 0 <= i < |after| ensures LinksOk(after, i) {
        ghost var was := if i < at then i else i + 1;
        assert after[i] == items[was];
        assert old(LinksOk(items, was));
      }
      r := item;
    }

    /** cJSON_InsertItemInArray: before the item at `which`, or at the end. Unlike appending, an
        index in range does not refuse the array itself: it becomes a sibling of its own children,
        and the chain of its children now leads to it. */
    method Insert(which: int, item: Item, ghost items: seq<Item>) returns (ok: bool)
      requires HasChildren(items) && item !in items
      modifies this`child, items, item
      ensures which < 0 ==> !ok && unchanged(this) && unchanged(items) && unchanged(item)
      ensures which >= |items| ==> ok == (item != this)
      ensures which >= |items| && ok ==> (HasChildren(items + [item]) <==> items == [] || old(item.next) == null)
      ensures 0 <= which < |items| && item != this ==> ok && HasChildren(items[..which] + [item] + items[which..])
      ensures 0 <= which < |items| && item == this ==>
                && ok && next == items[which] && items[which].prev == this
                && (if which == 0 then child == this else child == items[0] && items[which - 1].next == this)
    {
      if which < 0 { return false; }
      var after := GetItem(which, items);
      if after == null {
        ok := AddItem(item, items);
        return;
      }
      assert LinksOk(items, which);
      if after != child && after.prev == null { return false; }
      item.next := after;
      item.prev := after.prev;
      after.prev := item;
      if after == child {
        child := item;
      } else {
        item.prev.next := item;
      }
      ok := true;
      if item != this {
        ghost var all := items[..which] + [item] + items[which..];
        forall i | 0 <= i < |all| ensures LinksOk(all, i) {
          ghost var was := if i < which then i else i - 1;
          if i != which {
            assert all[i] == items[was];
            assert old(LinksOk(items, was));
          }
        }
      }
    }

    /** cJSON_ReplaceItemViaPointer on a member, up to freeing the old item, which comes out
        detached. */
    method Replace(item: Item, replacement: Item, ghost items: seq<Item>, ghost at: nat) returns (ok: bool)
      requires HasChildren(items) && at < |items| && items[at] == item
      requires replacement == item || (replacement !in items && replacement != this)
      modifies this`child, items, replacement
      ensures ok && HasChildren(items[at := replacement])
      ensures replacement != item ==> item.Detached()
    {
      if replacement == item {
        assert items[at := replacement] == items;
        return true;
      }
      assert LinksOk(items, at) && LinksOk(items, 0);
      replacement.next := item.next;
      replacement.prev := item.prev;
      if replacement.next != null { replacement.next.prev := replacement; }
      if child == item {
        if child.prev == child { replacement.prev := replacement; }
        child := replacement;
      } else {
        if replacement.prev != null { replacement.prev.next := replacement; }
        if replacement.next == null { child.prev := replacement; }
      }
      item.next, item.prev := null, null;
      ghost var after := items[at := replacement];
      forall i | 0 <= i < |after| ensures LinksOk(after, i) {
        assert old(LinksOk(items, i));
      }
      ok := true;
    }
  }

  /** Detaching and reinserting at the same place restores the list. */
  method DetachThenInsert(parent: Item, at: nat, ghost items: seq<Item>)
    requires parent.HasChildren(items) && at < |items|
    modifies parent, items
    ensures parent.HasChildren(items)
  {
    var item := parent.GetItem(at, items);
    var r := parent.Detach(item, items, at);
    ghost var rest := items[..at] + items[at + 1..];
    var ok := parent.Insert(at, item, rest);
    assert at == |rest| ==> rest + [item] == items;
    assert at < |rest| ==> rest[..at] + [item] + rest[at..] == items;
  }
}
