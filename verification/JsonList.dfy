/** The child list of an array or object item: a doubly linked list that ends with null on both sides,
    relinked in place. Each edit is proved to do to the sequence of children what its name says. */
module JsonList {

  class Item {
    var next: Item?
    var prev: Item?
    var child: Item?
    ghost var items: seq<Item>

    constructor ()
      ensures next == prev == child == null && items == [] && WellFormed()
    {
      next, prev, child, items := null, null, null, [];
    }

    /** `items` are the children in order: next and prev are mutually inverse, the first has no prev, the
        last has no next, and no item occurs twice. */
    ghost predicate WellFormed()
      reads this, items
    {
      && (forall i, j :: 0 <= i < j < |items| ==> items[i] != items[j])
      && this !in items
      && child == At(items, 0)
      && (forall i {:trigger items[i].next} :: 0 <= i < |items| ==> items[i].next == At(items, i + 1))
      && (forall i {:trigger items[i].prev} :: 0 <= i < |items| ==> items[i].prev == At(items, i - 1))
    }

    ghost predicate Detached()
      reads this
    {
      next == null && prev == null
    }

    static ghost function At(s: seq<Item>, i: int): Item? {
      if 0 <= i < |s| then s[i] else null
    }

    static ghost function Just(item: Item?): set<Item> {
      if item == null then {} else {item}
    }

    method GetArraySize() returns (size: nat)
      requires WellFormed()
      ensures size == |items|
    {
      var c := child;
      size := 0;
      while c != null
        invariant size <= |items| && c == At(items, size)
        decreases |items| - size
      {
        size := size + 1;
        c := c.next;
      }
    }

    /** get_array_item */
    method GetArrayItem(index: nat) returns (found: Item?)
      requires WellFormed()
      ensures found == At(items, index)
    {
      var i := index;
      found := child;
      while found != null && i > 0
        invariant 0 <= i <= index && found == At(items, index - i)
      {
        i := i - 1;
        found := found.next;
      }
    }

    /** add_item_to_array */
    method AddItem(item: Item?) returns (ok: bool)
      requires WellFormed()
      requires item != null ==> item != this && item !in items && item.Detached()
      modifies this`child, this`items, items`next, items`prev, Just(item)`next, Just(item)`prev
      ensures WellFormed() && ok == (item != null)
      ensures items == if item == null then old(items) else old(items) + [item]
    {
      if item == null {
        return false;
      }
      var last := child;
      if last == null {
        child := item;
      } else {
        ghost var k := 0;
        while last.next != null
          invariant 0 <= k < |items| && last == items[k]
          decreases |items| - k
        {
          last, k := last.next, k + 1;
        }
        last.next := item;
        item.prev := last;
      }
      items := items + [item];
      ok := true;
    }

    /** cJSON_DetachItemViaPointer, `k` being where the item is. */
    method DetachItem(item: Item?, ghost k: nat) returns (detached: Item?)
      requires WellFormed()
      requires item != null ==> At(items, k) == item
      modifies this`child, this`items, items`next, items`prev
      ensures WellFormed() && detached == item
      ensures item == null ==> items == old(items)
      ensures item != null ==> item.Detached() && items == Without(old(items), k)
    {
      if item == null {
        return null;
      }
      if item.prev != null {
        item.prev.next := item.next;
      }
      if item.next != null {
        item.next.prev := item.prev;
      }
      if item == child {
        child := item.next;
      }
      item.prev := null;
      item.next := null;
      items := Without(items, k);
      detached := item;
    }

    /** cJSON_DetachItemFromArray */
    method DetachItemFromArray(which: int) returns (detached: Item?)
      requires WellFormed()
      modifies this`child, this`items, items`next, items`prev
      ensures WellFormed() && detached == old(At(items, which))
      ensures detached == null ==> items == old(items)
      ensures detached != null ==> detached.Detached() && items == Without(old(items), which)
    {
      if which < 0 {
        return null;
      }
      var item := GetArrayItem(which);
      detached := DetachItem(item, which);
    }

    /** cJSON_InsertItemInArray: past the end it appends, below zero it does nothing. */
    method InsertItem(which: int, newItem: Item)
      requires WellFormed() && newItem != this && newItem !in items
      requires which >= |items| ==> newItem.Detached()
      modifies this`child, this`items, items`next, items`prev, newItem`next, newItem`prev
      ensures WellFormed()
      ensures items == if which < 0 then old(items) else With(old(items), which, newItem)
      ensures which < 0 ==> newItem.next == old(newItem.next) && newItem.prev == old(newItem.prev)
    {
      if which < 0 {
        return;
      }
      var after := GetArrayItem(which);
      if after == null {
        var ok := AddItem(newItem);
        return;
      }
      LinkBefore(after, newItem, which);
    }

    /** The relinking of cJSON_InsertItemInArray in front of the child `after`. */
    method LinkBefore(after: Item, newItem: Item, ghost k: nat)
      requires WellFormed() && At(items, k) == after && newItem != this && newItem !in items
      modifies this`child, this`items, items`next, items`prev, newItem`next, newItem`prev
      ensures WellFormed() && items == With(old(items), k, newItem)
    {
      hide With;
      ghost var s := items;
      newItem.next := after;
      newItem.prev := after.prev;
      after.prev := newItem;
      if after == child {
        child := newItem;
      } else {
        newItem.prev.next := newItem;
      }
      items := With(s, k, newItem);
      assert forall i :: 0 <= i < k ==> items[i] == s[i];
      assert items[k] == newItem;
      assert forall i :: k < i < |items| ==> items[i] == s[i - 1];
    }

    /** cJSON_ReplaceItemViaPointer; the replaced item is left detached for deletion. */
    method ReplaceItem(item: Item?, replacement: Item?, ghost k: nat) returns (ok: bool)
      requires WellFormed()
      requires item != null ==> At(items, k) == item
      requires replacement != null && replacement != item ==> replacement != this && replacement !in items
      modifies this`child, this`items, items`next, items`prev, Just(replacement)`next, Just(replacement)`prev
      ensures WellFormed() && ok == (item != null && replacement != null)
      ensures !ok ==> items == old(items)
      ensures ok ==> items == old(items)[k := replacement] && (replacement != item ==> item.Detached())
    {
      if item == null || replacement == null {
        return false;
      }
      if replacement == item {
        return true;
      }
      replacement.next := item.next;
      replacement.prev := item.prev;
      if replacement.next != null {
        replacement.next.prev := replacement;
      }
      if replacement.prev != null {
        replacement.prev.next := replacement;
      }
      if child == item {
        child := replacement;
      }
      item.next := null;
      item.prev := null;
      ghost var s := items;
      items := s[k := replacement];
      Replaced(s, k, replacement);
      ok := true;
    }

    /** The list `s` with another item at `k`, linked to its neighbours. */
    lemma Replaced(s: seq<Item>, k: nat, r: Item)
      requires k < |s| && items == s[k := r] && r != this && this !in s && r !in s
      requires forall i, j :: 0 <= i < j < |s| ==> s[i] != s[j]
      requires child == (if k == 0 then r else s[0]) && r.next == At(s, k + 1) && r.prev == At(s, k - 1)
      requires forall i {:trigger s[i].next} :: 0 <= i < |s| && i != k ==> s[i].next == if i + 1 == k then r else At(s, i + 1)
      requires forall i {:trigger s[i].prev} :: 0 <= i < |s| && i != k ==> s[i].prev == if i - 1 == k then r else At(s, i - 1)
      ensures WellFormed()
    {
      forall i {:trigger items[i].next} | 0 <= i < |items| ensures items[i].next == At(items, i + 1) {
        assert i != k ==> items[i] == s[i];
      }
      forall i {:trigger items[i].prev} | 0 <= i < |items| ensures items[i].prev == At(items, i - 1) {
        assert i != k ==> items[i] == s[i];
      }
    }

    /** cJSON_InsertItemInArray and then cJSON_DetachItemFromArray at the place where the item went: every child, every
        link and the head are as before, and the item is unlinked again. */
    method DetachUndoesInsert(which: nat, newItem: Item)
      requires WellFormed() && newItem != this && newItem !in items && newItem.Detached()
      modifies this`child, this`items, items`next, items`prev, newItem`next, newItem`prev
      ensures WellFormed() && items == old(items) && child == old(child) && newItem.Detached()
      ensures forall x :: x in items ==> x.next == old(x.next) && x.prev == old(x.prev)
    {
      hide With, Without;
      var size := GetArraySize();
      InsertItem(which, newItem);
      var detached := DetachItemFromArray(if which < size then which else size);
      WithAndWithout(old(items), which, newItem);
      SameLinks();
    }

    /** Detaching a child and inserting it again where it was. */
    method InsertUndoesDetach(which: nat)
      requires WellFormed() && which < |items|
      modifies this`child, this`items, items`next, items`prev
      ensures WellFormed() && items == old(items) && child == old(child)
      ensures forall x :: x in items ==> x.next == old(x.next) && x.prev == old(x.prev)
    {
      hide With, Without;
      ghost var item := items[which];
      var detached := DetachItemFromArray(which);
      assert detached !in items;
      InsertItem(which, detached);
      WithAndWithout(old(items), which, item);
      SameLinks();
    }

    /** A well-formed list's links follow from its children. */
    twostate lemma SameLinks()
      requires old(WellFormed()) && WellFormed() && items == old(items)
      ensures child == old(child) && forall x :: x in items ==> x.next == old(x.next) && x.prev == old(x.prev)
    {
      forall x | x in items ensures x.next == old(x.next) && x.prev == old(x.prev) {
        var i :| 0 <= i < |items| && items[i] == x;
        assert items[i].next == At(items, i + 1) && items[i].prev == At(items, i - 1);
      }
    }
  }

  // ---------- the same edits on sequences

  ghost function Without<T>(s: seq<T>, k: nat): (r: seq<T>)
    requires k < |s|
    ensures |r| == |s| - 1
    ensures forall i {:trigger r[i]} :: 0 <= i < |r| ==> r[i] == if i < k then s[i] else s[i + 1]
  {
    s[..k] + s[k + 1..]
  }

  ghost function With<T>(s: seq<T>, k: nat, x: T): (r: seq<T>)
    ensures |r| == |s| + 1
    ensures var at := if k < |s| then k else |s|;
      forall i {:trigger r[i]} :: 0 <= i < |r| ==> r[i] == if i < at then s[i] else if i == at then x else s[i - 1]
  {
    if k < |s| then s[..k] + [x] + s[k..] else s + [x]
  }

  lemma WithAndWithout<T>(s: seq<T>, k: nat, x: T)
    ensures Without(With(s, k, x), if k < |s| then k else |s|) == s
    ensures k < |s| ==> With(Without(s, k), k, s[k]) == s
  {
    if k < |s| {
      assert With(Without(s, k), k, s[k]) == s[..k] + [s[k]] + s[k + 1..];
    }
  }
}
