/** The kernel's singly linked list, used in order of arrival or sorted by key. */
module Lists {
  import opened Sequences

  datatype Entry<Item> = Entry(key: int, item: Item)

  /** Where SortedInsert puts an entry: before the first one with a greater key. */
  function Insert<Item>(s: seq<Entry<Item>>, e: Entry<Item>): (t: seq<Entry<Item>>)
    ensures |t| == |s| + 1
  {
    if s == [] || e.key < s[0].key then [e] + s else [s[0]] + Insert(s[1..], e)
  }

  lemma {:induction false} InsertAt<Item>(s: seq<Entry<Item>>, e: Entry<Item>, p: nat)
    requires p <= |s| && (forall j | 0 <= j < p :: s[j].key <= e.key) && (p < |s| ==> e.key < s[p].key)
    ensures Insert(s, e) == s[..p] + [e] + s[p..]
  {
    if p > 0 {
      InsertAt(s[1..], e, p - 1);
      assert [s[0]] + s[1..][..p - 1] == s[..p];
    }
  }

  ghost predicate Sorted<Item>(s: seq<Entry<Item>>) {
    forall i, j | 0 <= i < j < |s| :: s[i].key <= s[j].key
  }

  lemma {:induction false} InsertAddsOne<Item>(s: seq<Entry<Item>>, e: Entry<Item>)
    ensures multiset(Insert(s, e)) == multiset(s) + multiset{e}
  {
    if s != [] && e.key >= s[0].key {
      InsertAddsOne(s[1..], e);
      assert s == [s[0]] + s[1..];
    }
  }

  /** The position the walk finds. */
  function Place<Item>(s: seq<Entry<Item>>, key: int): (p: nat)
    ensures p <= |s| && (forall j | 0 <= j < p :: s[j].key <= key) && (p < |s| ==> key < s[p].key)
  {
    if s == [] || key < s[0].key then 0
    else
      var p := 1 + Place(s[1..], key);
      assert forall j | 1 <= j < p :: s[j] == s[1..][j - 1];
      p
  }

  lemma PlaceUnique<Item>(s: seq<Entry<Item>>, key: int, p: nat)
    requires p <= |s| && (forall j | 0 <= j < p :: s[j].key <= key) && (p < |s| ==> key < s[p].key)
    ensures Place(s, key) == p
  {
  }

  lemma InsertKeepsSorted<Item>(s: seq<Entry<Item>>, e: Entry<Item>)
    requires Sorted(s)
    ensures Sorted(Insert(s, e))
  {
    var p := Place(s, e.key);
    InsertAt(s, e, p);
    hide Insert, Place;
    assert Sorted(s[..p] + [e] + s[p..]);
  }

  class ListElement<Item> {
    var next: ListElement?<Item>
    var key: int
    var item: Item

    constructor (anItem: Item, sortKey: int)
      ensures item == anItem && key == sortKey && next == null
    {
      item, key, next := anItem, sortKey, null;
    }
  }

  class List<Item(0)> {
    var first: ListElement?<Item>
    var last: ListElement?<Item>
    ghost var spine: seq<ListElement<Item>>
    ghost var contents: seq<Entry<Item>>

    static lemma DistinctInsert(s: seq<ListElement<Item>>, x: ListElement<Item>, p: nat)
      requires Distinct(s) && x !in s && p <= |s|
      ensures Distinct(s[..p] + [x] + s[p..])
    {
    }

    static ghost function NextOf(spine: seq<ListElement<Item>>, i: int): ListElement?<Item>
      requires 0 <= i < |spine|
    {
      if i + 1 < |spine| then spine[i + 1] else null
    }

    /** Element i carries entry i and points to element i + 1. */
    ghost predicate Linked(spine: seq<ListElement<Item>>, contents: seq<Entry<Item>>, i: int)
      requires 0 <= i < |spine| == |contents|
      reads spine[i]
    {
      spine[i].next == NextOf(spine, i) && Entry(spine[i].key, spine[i].item) == contents[i]
    }

    /** The spine is the chain from first to last, without repetition, and carries the contents. */
    ghost predicate Valid()
      reads this, spine
    {
      && Distinct(spine)
      && |contents| == |spine|
      && first == (if spine == [] then null else spine[0])
      && last == (if spine == [] then null else spine[|spine| - 1])
      && (forall i | 0 <= i < |spine| :: Linked(spine, contents, i))
    }

    /** No element but old ones and new ones: what a caller that may change the list may rely on. */
    twostate predicate SameOrNew()
      reads this
    {
      forall i | 0 <= i < |spine| :: spine[i] in old(spine) || fresh(spine[i])
    }

    /** One new element somewhere among the old ones. */
    twostate lemma OneNew(new element: ListElement<Item>, p: nat)
      requires p <= |old(spine)| && spine == old(spine)[..p] + [element] + old(spine)[p..] && fresh(element)
      ensures SameOrNew()
    {
      ghost var before := old(spine);
      forall i | 0 <= i < |spine|
        ensures spine[i] in before || fresh(spine[i])
      {
        if i < p {
          assert spine[i] == before[i];
        } else if p < i {
          assert spine[i] == before[i - 1];
        }
      }
    }

    twostate predicate NoneNew()
      reads this
    {
      forall i | 0 <= i < |spine| :: spine[i] in old(spine)
    }

    constructor ()
      ensures Valid() && contents == [] && spine == []
    {
      first, last, spine, contents := null, null, [], [];
    }

    method IsEmpty() returns (empty: bool)
      requires Valid()
      ensures empty <==> contents == []
    {
      empty := first == null;
    }

    /** Links an element in at the end. */
    method LinkLast(element: ListElement<Item>)
      requires Valid() && element !in spine && element.next == null
      modifies this, last, element
      ensures Valid() && spine == old(spine) + [element]
      ensures contents == old(contents) + [old(Entry(element.key, element.item))]
    {
      ghost var before := spine;
      DistinctInsert(before, element, |before|);
      assert before[..|before|] + [element] + before[|before|..] == before + [element];
      OthersDiffer(before, |before| - 1);
      hide Distinct;
      if first == null {
        first, last := element, element;
      } else {
        last.next := element;
        last := element;
      }
      spine, contents := spine + [element], contents + [Entry(element.key, element.item)];
      forall j | 0 <= j < |before|
        ensures Linked(spine, contents, j)
      {
        assert old(Linked(before, contents, j));
      }
    }

    method Append(item: Item)
      requires Valid()
      modifies this, spine
      ensures Valid() && SameOrNew()
      ensures contents == old(contents) + [Entry(0, item)]
    {
      var element := new ListElement<Item>(item, 0);
      LinkLast(element);
    }

    /** Links an element in before a non-empty list. */
    method LinkFirst(element: ListElement<Item>)
      requires Valid() && first != null && element !in spine
      modifies this, element
      ensures Valid() && spine == [element] + old(spine)
      ensures contents == [old(Entry(element.key, element.item))] + old(contents)
    {
      ghost var before := spine;
      DistinctInsert(before, element, 0);
      hide Distinct;
      element.next := first;
      first := element;
      spine, contents := [element] + spine, [Entry(element.key, element.item)] + contents;
      assert spine == before[..0] + [element] + before[0..];
      forall i | 1 <= i < |spine|
        ensures Linked(spine, contents, i)
      {
        assert Linked(before, old(contents), i - 1) && NextOf(spine, i) == NextOf(before, i - 1);
      }
    }

    /** Links an element in behind the one at position i, which is not the last. */
    method LinkAfter(element: ListElement<Item>, ptr: ListElement<Item>, ghost i: nat)
      requires Valid() && i + 1 < |spine| && ptr == spine[i] && element !in spine
      modifies this, ptr, element
      ensures Valid() && spine == old(spine[..i + 1]) + [element] + old(spine[i + 1..])
      ensures contents == old(contents[..i + 1]) + [old(Entry(element.key, element.item))] + old(contents[i + 1..])
    {
      ghost var before, held := spine, contents;
      DistinctInsert(before, element, i + 1);
      OthersDiffer(before, i);
      hide Distinct;
      assert Linked(before, held, i);
      element.next := ptr.next;
      ptr.next := element;
      spine := before[..i + 1] + [element] + before[i + 1..];
      contents := held[..i + 1] + [Entry(element.key, element.item)] + held[i + 1..];
      forall j | 0 <= j < |spine|
        ensures Linked(spine, contents, j)
      {
        if j > i + 1 {
          assert old(Linked(before, held, j - 1)) && NextOf(spine, j) == NextOf(before, j - 1);
        } else if j < i {
          assert old(Linked(before, held, j)) && NextOf(spine, j) == NextOf(before, j);
        }
      }
    }

    static lemma OthersDiffer(s: seq<ListElement<Item>>, i: int)
      requires Distinct(s) && i < |s|
      ensures 0 <= i ==> forall j | 0 <= j < |s| && j != i :: s[j] != s[i]
    {
    }

    method Prepend(item: Item)
      requires Valid()
      modifies this, spine
      ensures Valid() && SameOrNew()
      ensures contents == [Entry(0, item)] + old(contents)
    {
      var element := new ListElement<Item>(item, 0);
      if first == null {
        LinkLast(element);
      } else {
        LinkFirst(element);
      }
    }

    /** The walk of SortedInsert: the last element of the run of keys that are not greater. */
    method Walk(sortKey: int) returns (ptr: ListElement<Item>, ghost i: nat)
      requires Valid() && first != null && first.key <= sortKey
      ensures i < |spine| && ptr == spine[i] && i + 1 == Place(contents, sortKey)
    {
      ptr, i := first, 0;
      assert Linked(spine, contents, 0);
      while ptr.next != null
        invariant 0 <= i < |spine| && ptr == spine[i]
        invariant forall j | 0 <= j <= i :: contents[j].key <= sortKey
        decreases |spine| - i
      {
        assert Linked(spine, contents, i);
        assert Linked(spine, contents, i + 1);
        if sortKey < ptr.next.key {
          break;
        }
        ptr := ptr.next;
        i := i + 1;
      }
      assert Linked(spine, contents, i);
      PlaceUnique(contents, sortKey, i + 1);
    }

    method SortedInsert(item: Item, sortKey: int)
      requires Valid()
      modifies this, spine
      ensures Valid() && SameOrNew()
      ensures contents == Insert(old(contents), Entry(sortKey, item))
    {
      hide Distinct, SameOrNew;
      var element := new ListElement<Item>(item, sortKey);
      ghost var p := Place(contents, sortKey);
      InsertAt(contents, Entry(sortKey, item), p);
      if first == null {
        LinkLast(element);
      } else {
        assert Linked(spine, contents, 0);
        if sortKey < first.key {
          LinkFirst(element);
        } else {
          var ptr, i := Walk(sortKey);
          assert Linked(spine, contents, i);
          if ptr.next != null {
            LinkAfter(element, ptr, i);
          } else {
            LinkLast(element);
          }
        }
      }
      hide Valid, Insert, Place;
      OneNew(element, p);
    }

    /** Takes the first entry off the list; nothing changes when there is none. */
    method SortedRemove() returns (removed: bool, key: int, thing: Item)
      requires Valid()
      modifies this
      ensures Valid() && NoneNew()
      ensures removed <==> old(contents) != []
      ensures removed ==> old(contents) == [Entry(key, thing)] + contents
      ensures !removed ==> contents == []
    {
      if first == null {
        return false, 0, *;
      }
      var element := first;
      assert Linked(spine, contents, 0);
      removed, key, thing := true, element.key, element.item;
      if first == last {
        first, last := null, null;
      } else {
        first := element.next;
      }
      spine, contents := spine[1..], contents[1..];
      forall i | 0 <= i < |spine|
        ensures Linked(spine, contents, i)
      {
        assert Linked(old(spine), old(contents), i + 1);
      }
    }

    method Remove() returns (removed: bool, thing: Item)
      requires Valid()
      modifies this
      ensures Valid() && NoneNew()
      ensures removed <==> old(contents) != []
      ensures removed ==> exists key :: old(contents) == [Entry(key, thing)] + contents
      ensures !removed ==> contents == []
    {
      var key;
      removed, key, thing := SortedRemove();
    }
  }
}
