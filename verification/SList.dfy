/** The singly linked lists of slist.h, whose macros walk the list with the head
    pointer itself and put it back. */
module SList {

  class Node<T> {
    const item: T
    var next: Node?<T>

    constructor (item: T)
      ensures this.item == item && next == null
    {
      this.item := item;
      next := null;
    }
  }

  class List<T> {
    var head: Node?<T>
    ghost var spine: seq<Node<T>>  // the nodes in list order

    /** `head` leads through exactly the nodes of the spine, which are distinct,
        and then to null: the list has no cycle. */
    ghost predicate Valid()
      reads this, spine
    {
      && Distinct(spine)
      && Linked(spine)
      && head == if spine == [] then null else spine[0]
    }

    constructor ()
      ensures Valid() && spine == []
    {
      head, spine := null, [];
    }

    /** LIBNFS_LIST_ADD */
    method Add(item: Node<T>)
      requires Valid() && item !in spine
      modifies this, item
      ensures Valid() && spine == [item] + old(spine)
    {
      item.next := head;
      head := item;
      spine := [item] + spine;
      forall i | 0 <= i < |spine|
        ensures spine[i].next == After(spine, i)
      {
        if i > 0 {
          assert spine[i] == old(spine)[i - 1];
          assert old(spine[i - 1].next) == After(old(spine), i - 1);
        }
      }
    }

    /** LIBNFS_LIST_ADD_END */
    method AddEnd(item: Node<T>)
      requires Valid() && item !in spine
      modifies this, spine, item
      ensures Valid() && spine == old(spine) + [item]
    {
      if head == null {
        Add(item);
        return;
      }
      var save := head;
      ghost var i := 0;
      while head.next != null
        modifies this`head
        invariant 0 <= i < |spine| && head == spine[i] && Linked(spine)
        decreases |spine| - i
      {
        assert spine[i].next == After(spine, i);
        head := head.next;
        i := i + 1;
      }
      assert spine[i].next == After(spine, i);
      head.next := item;
      item.next := null;
      head := save;
      spine := spine + [item];
      forall i | 0 <= i < |spine|
        ensures spine[i].next == After(spine, i)
      {
        if i < |old(spine)| {
          assert spine[i] == old(spine)[i];
          assert old(spine[i].next) == After(old(spine), i);
        }
      }
    }

    /** LIBNFS_LIST_REMOVE. The list must not be empty; an item that is not in
        it leaves it as it is. */
    method Remove(item: Node<T>)
      requires Valid() && spine != []
      modifies this, spine
      ensures Valid() && spine == Without(old(spine), item)
      ensures item.next == old(item.next)
    {
      if head == item {
        head := item.next;
        WithoutHead(spine);
        CutOut(spine, 0);
        assert spine[0].next == After(spine, 0);
        spine := spine[1..];
        forall k | 0 <= k < |spine|
          ensures spine[k].next == After(spine, k)
        {
          assert spine[k] == old(spine)[k + 1];
          assert old(spine[k + 1].next) == After(old(spine), k + 1);
        }
        return;
      }
      var save := head;
      ghost var i := 0;
      while head.next != null && head.next != item
        modifies this`head
        invariant 0 <= i < |spine| && head == spine[i] && Linked(spine)
        invariant forall k :: 0 <= k <= i ==> spine[k] != item
        decreases |spine| - i
      {
        assert spine[i].next == After(spine, i);
        head := head.next;
        i := i + 1;
      }
      assert spine[i].next == After(spine, i);
      WithoutAt(spine, i + 1, item);
      if head.next != null {
        Bypass(i);
      }
      head := save;
    }

    /** (*list)->next = (*list)->next->next, at the i-th node. */
    method Bypass(ghost i: nat)
      requires i + 1 < |spine| && head == spine[i] && Distinct(spine) && Linked(spine)
      modifies this`spine, head
      ensures spine == old(spine)[..i + 1] + old(spine)[i + 2..] && Distinct(spine) && Linked(spine)
    {
      assert spine[i].next == After(spine, i) && spine[i + 1].next == After(spine, i + 1);
      head.next := head.next.next;
      CutOut(spine, i + 1);
      ghost var before := spine;
      spine := spine[..i + 1] + spine[i + 2..];
      forall k | 0 <= k < |spine|
        ensures spine[k].next == After(spine, k)
      {
        var j := if k <= i then k else k + 1;
        assert spine[k] == before[j];
        assert old(before[j].next) == After(before, j);
      }
    }
  }

  lemma CutOut<T>(spine: seq<Node<T>>, i: nat)
    requires i < |spine| && Distinct(spine)
    ensures Distinct(spine[..i] + spine[i + 1..])
  {
    var cut := spine[..i] + spine[i + 1..];
    assert forall k :: 0 <= k < |cut| ==> cut[k] == spine[if k < i then k else k + 1];
  }

  ghost predicate Distinct<T>(spine: seq<Node<T>>) {
    forall i, j :: 0 <= i < j < |spine| ==> spine[i] != spine[j]
  }

  ghost predicate Linked<T>(spine: seq<Node<T>>)
    reads spine
  {
    forall i {:trigger spine[i].next} :: 0 <= i < |spine| ==> spine[i].next == After(spine, i)
  }

  /** The node after the i-th. */
  ghost function After<T>(spine: seq<Node<T>>, i: nat): Node?<T> {
    if i + 1 < |spine| then spine[i + 1] else null
  }

  /** The nodes other than `item`. */
  ghost function Without<T>(spine: seq<Node<T>>, item: Node<T>): seq<Node<T>> {
    if spine == [] then []
    else if spine[0] == item then spine[1..]
    else [spine[0]] + Without(spine[1..], item)
  }

  lemma WithoutHead<T>(spine: seq<Node<T>>)
    requires spine != []
    ensures Without(spine, spine[0]) == spine[1..]
  {
  }

  lemma {:induction false} WithoutAt<T>(spine: seq<Node<T>>, i: nat, item: Node<T>)
    requires i <= |spine| && forall k :: 0 <= k < i ==> spine[k] != item
    requires i < |spine| ==> spine[i] == item
    ensures Without(spine, item) == if i < |spine| then spine[..i] + spine[i + 1..] else spine
  {
    if i > 0 {
      WithoutAt(spine[1..], i - 1, item);
      if i < |spine| {
        assert [spine[0]] + (spine[1..][..i - 1] + spine[1..][i..]) == spine[..i] + spine[i + 1..];
      } else {
        assert [spine[0]] + spine[1..] == spine;
      }
    }
  }
}
