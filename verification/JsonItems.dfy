/** cJSON items on the heap and their child lists: the next pointers run through the list, each prev
    points back, and the prev of the head is the tail. */
module JsonItems {
  import opened Bytes
  import opened Wrappers

  datatype Kind = NullKind | FalseKind | TrueKind | NumberKind | StringKind | ArrayKind | ObjectKind

  /** struct cJSON. */
  class Item {
    var kind: Kind
    var valuedouble: int
    var valuestring: seq<byte>
    var name: Option<seq<byte>>   // the member name, called string in the source
    var next: Item?
    var prev: Item?
    var child: Item?

    constructor (kind: Kind)
      ensures this.kind == kind && next == null && prev == null && child == null && name == None
    {
      this.kind, valuedouble, valuestring, name := kind, 0, [], None;
      next, prev, child := null, null, null;
    }
  }

  /** The children of a parent are these items, in this order. */
  ghost predicate Chain(parent: Item, items: seq<Item>)
    reads parent`child, items`next, items`prev
  {
    && (forall i, j :: 0 <= i < j < |items| ==> items[i] != items[j])
    && parent.child == (if items == [] then null else items[0])
    && (forall i :: 0 <= i < |items| ==> Linked(items, i))
  }

  ghost predicate Linked(items: seq<Item>, i: nat)
    requires i < |items|
    reads items`next, items`prev
  {
    && items[i].next == (if i + 1 < |items| then items[i + 1] else null)
    && items[i].prev == (if i > 0 then items[i - 1] else items[|items| - 1])
  }

  /** An item belongs to no list. */
  ghost predicate Loose(item: Item)
    reads item`next, item`prev
  {
    item.next == null && item.prev == null
  }

  ghost function Present(item: Item?): set<Item> {
    if item == null then {} else {item}
  }

  // ----- reading -----

  /** cJSON_GetArraySize. */
  method GetArraySize(parent: Item, ghost items: seq<Item>) returns (size: nat)
    requires Chain(parent, items)
    ensures size == |items|
  {
    size := 0;
    var child := parent.child;
    while child != null
      invariant size <= |items| && child == if size < |items| then items[size] else null
      decreases |items| - size
    {
      assert Linked(items, size);
      size := size + 1;
      child := child.next;
    }
  }

  /** get_array_item and cJSON_GetArrayItem: the list from both ends, past which there is nothing. */
  method GetArrayItem(parent: Item, index: int, ghost items: seq<Item>) returns (r: Item?)
    requires Chain(parent, items)
    ensures r == if 0 <= index < |items| then items[index] else null
  {
    if index < 0 {
      return null;
    }
    var left := index;
    r := parent.child;
    ghost var at := 0;
    while r != null && left > 0
      invariant 0 <= left && at <= |items| && r == if at < |items| then items[at] else null
      invariant at + left == index || (r == null && index >= |items|)
      decreases left
    {
      assert Linked(items, at);
      left := left - 1;
      r := r.next;
      at := at + 1;
    }
  }

  // ----- changing -----

  /** suffix_object. */
  method SuffixObject(prev: Item, item: Item)
    modifies prev`next, item`prev
    ensures prev.next == item && item.prev == prev
  {
    prev.next := item;
    item.prev := prev;
  }

  /** add_item_to_array: the tail is found in one step. */
  method AddItemToArray(parent: Item, item: Item, ghost items: seq<Item>) returns (ok: bool)
    requires Chain(parent, items) && item !in items && Loose(item)
    modifies parent`child, item`next, item`prev, items`next, items`prev
    ensures ok == (parent != item)
    ensures Chain(parent, if ok then items + [item] else items)
  {
    if parent == item {
      return false;
    }
    var child := parent.child;
    if child == null {
      parent.child := item;
      item.prev := item;
      item.next := null;
    } else {
      assert Linked(items, 0) && Linked(items, |items| - 1);
      if child.prev != null {
        SuffixObject(child.prev, item);
        parent.child.prev := item;
      }
    }
    ghost var longer := items + [item];
    forall i | 0 <= i < |longer| ensures Linked(longer, i) {
      assert i < |items| ==> old(Linked(items, i));
    }
    return true;
  }

  /** cJSON_DetachItemViaPointer. */
  method DetachItemViaPointer(parent: Item, item: Item?, ghost items: seq<Item>, ghost k: nat) returns (r: Item?)
    requires Chain(parent, items)
    requires item != null ==> k < |items| && item == items[k]
    modifies parent`child, items`next, items`prev
    ensures r == item
    ensures item != null ==> Chain(parent, items[..k] + items[k + 1..]) && Loose(item)
    ensures item == null ==> Chain(parent, items)
  {
    if item == null {
      return null;
    }
    assert Linked(items, k) && Linked(items, 0);
    assert k > 0 ==> Linked(items, k - 1);
    assert k + 1 < |items| ==> Linked(items, k + 1);
    if item != parent.child {
      item.prev.next := item.next;
    }
    if item.next != null {
      item.next.prev := item.prev;
    }
    if item == parent.child {
      parent.child := item.next;
    } else if item.next == null {
      parent.child.prev := item.prev;
    }
    item.prev := null;
    item.next := null;
    ghost var rest := items[..k] + items[k + 1..];
    forall i | 0 <= i < |rest| ensures Linked(rest, i) {
      assert old(Linked(items, if i < k then i else i + 1));
    }
    return item;
  }

  /** cJSON_DetachItemFromArray. */
  method DetachItemFromArray(parent: Item, which: int, ghost items: seq<Item>) returns (r: Item?)
    requires Chain(parent, items)
    modifies parent`child, items`next, items`prev
    ensures if 0 <= which < |items|
            then r == items[which] && Chain(parent, items[..which] + items[which + 1..]) && Loose(items[which])
            else r == null && Chain(parent, items)
  {
    if which < 0 {
      return null;
    }
    var item := GetArrayItem(parent, which, items);
    r := DetachItemViaPointer(parent, item, items, which);
  }

  /** cJSON_InsertItemInArray: before the item at a position, or at the end past the last one. */
  method InsertItemInArray(parent: Item, which: int, newitem: Item, ghost items: seq<Item>) returns (ok: bool)
    requires Chain(parent, items) && newitem !in items && newitem != parent && Loose(newitem)
    modifies parent`child, newitem`next, newitem`prev, items`next, items`prev
    ensures ok == (which >= 0)
    ensures Chain(parent, if which < 0 then items
                         else if which < |items| then items[..which] + [newitem] + items[which..]
                         else items + [newitem])
  {
    if which < 0 {
      return false;
    }
    var afterInserted := GetArrayItem(parent, which, items);
    if afterInserted == null {
      ok := AddItemToArray(parent, newitem, items);
      return;
    }
    assert Linked(items, which) && Linked(items, |items| - 1);
    assert which > 0 ==> Linked(items, which - 1);
    newitem.next := afterInserted;
    newitem.prev := afterInserted.prev;
    afterInserted.prev := newitem;
    if afterInserted == parent.child {
      parent.child := newitem;
    } else {
      newitem.prev.next := newitem;
    }
    ghost var longer := items[..which] + [newitem] + items[which..];
    forall i | 0 <= i < |longer| ensures Linked(longer, i) {
      if i != which {
        assert old(Linked(items, if i < which then i else i - 1));
      }
    }
    return true;
  }

  /** cJSON_ReplaceItemViaPointer. */
  method ReplaceItemViaPointer(parent: Item, item: Item?, replacement: Item?, ghost items: seq<Item>, ghost k: nat)
    returns (ok: bool)
    requires Chain(parent, items)
    requires item != null ==> k < |items| && item == items[k]
    requires replacement != null && replacement != item ==> replacement !in items && Loose(replacement)
    modifies parent`child, items`next, items`prev, Present(replacement)`next, Present(replacement)`prev
    ensures ok == (item != null && replacement != null)
    ensures ok ==> Chain(parent, items[k := replacement]) && (replacement != item ==> Loose(item))
    ensures !ok ==> Chain(parent, items)
  {
    if parent.child == null || replacement == null || item == null {
      return false;
    }
    if replacement == item {
      assert items[k := replacement] == items;
      return true;
    }
    assert Linked(items, k) && Linked(items, 0);
    replacement.next := item.next;
    replacement.prev := item.prev;
    if replacement.next != null {
      replacement.next.prev := replacement;
    }
    if parent.child == item {
      if parent.child.prev == parent.child {
        replacement.prev := replacement;
      }
      parent.child := replacement;
    } else {
      if replacement.prev != null {
        replacement.prev.next := replacement;
      }
      if replacement.next == null {
        parent.child.prev := replacement;
      }
    }
    item.next := null;
    item.prev := null;
    ghost var changed := items[k := replacement];
    forall i | 0 <= i < |changed| ensures Linked(changed, i) {
      assert old(Linked(items, i));
    }
    return true;
  }

  /** cJSON_ReplaceItemInArray. */
  method ReplaceItemInArray(parent: Item, which: int, newitem: Item?, ghost items: seq<Item>) returns (ok: bool)
    requires Chain(parent, items)
    requires newitem != null && !(0 <= which < |items| && newitem == items[which]) ==>
               newitem !in items && Loose(newitem)
    modifies parent`child, items`next, items`prev, Present(newitem)`next, Present(newitem)`prev
    ensures ok == (0 <= which < |items| && newitem != null)
    ensures Chain(parent, if ok then items[which := newitem] else items)
  {
    if which < 0 {
      return false;
    }
    var item := GetArrayItem(parent, which, items);
    ok := ReplaceItemViaPointer(parent, item, newitem, items, which);
  }
}
