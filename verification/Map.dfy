/** The map kept as two parallel arrays that grow together. */
module Maps {
  import opened Sequences

  const INITIAL_CAPACITY := 300

  /** The first place of a key, or the end. */
  function Position<Key(==)>(keys: seq<Key>, key: Key): (i: nat)
    ensures i <= |keys| && (i < |keys| <==> key in keys)
    ensures i < |keys| ==> keys[i] == key
    ensures key !in keys[..i]
  {
    if keys == [] || keys[0] == key then 0
    else
      var i := 1 + Position(keys[1..], key);
      assert keys[..i] == [keys[0]] + keys[1..][..i - 1] && keys == [keys[0]] + keys[1..];
      i
  }

  lemma PositionIs<Key>(keys: seq<Key>, key: Key, i: nat)
    requires i <= |keys| && key !in keys[..i] && (i < |keys| ==> keys[i] == key)
    ensures Position(keys, key) == i
  {
  }

  /** What looking keys up finds. */
  ghost function Table<Key, Object>(keys: seq<Key>, objects: seq<Object>): (t: map<Key, Object>)
    requires |keys| == |objects|
    ensures t.Keys == set k | k in keys
  {
    map k | k in keys :: objects[Position(keys, k)]
  }

  function Without<T>(s: seq<T>, i: nat): (r: seq<T>)
    requires i < |s|
    ensures |r| == |s| - 1
  {
    s[..i] + s[i + 1..]
  }

  /** The entries behind the gap move up by one, the others stay. */
  lemma WithoutIs<T>(s: seq<T>, i: nat, j: nat)
    requires i < |s| && j + 1 < |s|
    ensures Without(s, i)[j] == if j < i then s[j] else s[j + 1]
  {
  }

  lemma InsertTable<Key, Object>(keys: seq<Key>, objects: seq<Object>, key: Key, value: Object)
    requires |keys| == |objects| && Distinct(keys) && key !in keys
    ensures Distinct(keys + [key]) && Table(keys + [key], objects + [value]) == Table(keys, objects)[key := value]
  {
    forall k | k in keys + [key]
      ensures (objects + [value])[Position(keys + [key], k)] == Table(keys, objects)[key := value][k]
    {
      var i := Position(keys, k);
      assert (keys + [key])[..i] == keys[..i];
      PositionIs(keys + [key], k, i);
    }
  }

  lemma WithoutKeeps<Key>(keys: seq<Key>, p: nat)
    requires Distinct(keys) && p < |keys|
    ensures Distinct(Without(keys, p)) && keys[p] !in Without(keys, p)
    ensures forall k :: k in keys <==> k == keys[p] || k in Without(keys, p)
  {
  }

  lemma RemoveTable<Key, Object>(keys: seq<Key>, objects: seq<Object>, key: Key)
    requires |keys| == |objects| && Distinct(keys) && key in keys
    ensures var p := Position(keys, key);
      Distinct(Without(keys, p)) && Table(Without(keys, p), Without(objects, p)) == Table(keys, objects) - {key}
  {
    hide Distinct, Without;
    var p := Position(keys, key);
    assert keys[p] == key;
    WithoutKeeps(keys, p);
    var rest, left := Without(keys, p), Without(objects, p);
    var after, expected := Table(rest, left), Table(keys, objects) - {key};
    assert after.Keys == expected.Keys;
    forall k | k in after
      ensures after[k] == expected[k]
    {
      assert k in rest;
      PositionWithout(keys, objects, p, k);
    }
  }

  lemma PositionWithout<Key, Object>(keys: seq<Key>, objects: seq<Object>, p: nat, k: Key)
    requires |keys| == |objects| && Distinct(keys) && p < |keys| && k in Without(keys, p)
    ensures Position(Without(keys, p), k) < |keys| - 1
    ensures Without(objects, p)[Position(Without(keys, p), k)] == objects[Position(keys, k)]
  {
    hide Position;
    var i, j := Position(Without(keys, p), k), Position(keys, k);
    var at := if i < p then i else i + 1;
    assert Without(keys, p)[i] == keys[at] && Without(objects, p)[i] == objects[at];
    hide Without;
    assert keys[at] == keys[j];
  }

  class Map<Key(==, 0), Object(0)> {
    var keys: array<Key>
    var objects: array<Object>
    var capacity: nat
    var count: nat

    ghost predicate Valid()
      reads this
    {
      && keys.Length == objects.Length == capacity && count <= capacity && 0 < capacity
      && keys as object != objects as object
    }

    ghost function Keys(): seq<Key>
      requires Valid()
      reads this, keys
    {
      keys[..count]
    }

    ghost function Objects(): seq<Object>
      requires Valid()
      reads this, objects
    {
      objects[..count]
    }

    constructor ()
      ensures Valid() && Keys() == [] && Objects() == [] && fresh(keys) && fresh(objects) && capacity == 300
    {
      capacity, count := INITIAL_CAPACITY, 0;
      keys, objects := new Key[INITIAL_CAPACITY], new Object[INITIAL_CAPACITY];
    }

    /**
     * The slot that operator[] refers to: the one of the key, or the unused one behind
     * the last. A missing key in a full map makes the original read past its arrays.
     */
    method Find(key: Key) returns (index: nat)
      requires Valid() && (key in Keys() || count < capacity)
      ensures index == Position(Keys(), key) < capacity
    {
      index := 0;
      while keys[index] != key && index < count
        invariant index <= count && index < capacity && key !in keys[..index]
        invariant key in Keys() || count < capacity
      {
        index := index + 1;
        assert index == count ==> keys[..index] == Keys();
      }
      assert Keys()[..index] == keys[..index];
      PositionIs(Keys(), key, index);
    }

    method Insert(key: Key, value: Object)
      requires Valid()
      modifies this, keys, objects
      ensures Valid() && Keys() == old(Keys()) + [key] && Objects() == old(Objects()) + [value]
      ensures (keys == old(keys) && objects == old(objects)) || (fresh(keys) && fresh(objects))
      ensures old(count) < old(capacity) ==> capacity == old(capacity) && keys == old(keys) && objects == old(objects)
      ensures old(count) == old(capacity) ==> capacity == 2 * old(capacity)
    {
      if count >= capacity {
        Grow();
      }
      keys[count], objects[count] := key, value;
      count := count + 1;
    }

    /** The reallocation: twice the room, the same entries. */
    method Grow()
      requires Valid()
      modifies this`keys, this`objects, this`capacity
      ensures Valid() && capacity == 2 * old(capacity) && Keys() == old(Keys()) && Objects() == old(Objects())
      ensures fresh(keys) && fresh(objects)
    {
      var moreKeys, moreObjects := new Key[2 * capacity], new Object[2 * capacity];
      forall i | 0 <= i < count {
        moreKeys[i] := keys[i];
      }
      forall i | 0 <= i < count {
        moreObjects[i] := objects[i];
      }
      keys, objects, capacity := moreKeys, moreObjects, 2 * capacity;
    }

    /** Closes the gap that the first entry of the key leaves. */
    method Remove(key: Key)
      requires Valid() && key in Keys()
      modifies this`count, keys, objects
      ensures Valid() && Keys() == Without(old(Keys()), Position(old(Keys()), key))
      ensures Objects() == Without(old(Objects()), Position(old(Keys()), key))
    {
      var index := 0;
      while keys[index] != key
        invariant index < count && key !in keys[..index] && key in Keys()
        decreases count - index
      {
        assert keys[..index + 1] == keys[..index] + [keys[index]];
        index := index + 1;
      }
      assert Keys()[..index] == keys[..index];
      PositionIs(Keys(), key, index);
      CloseGap(index);
      count := count - 1;
    }

    method CloseGap(index: nat)
      requires Valid() && index < count
      modifies keys, objects
      ensures keys[..count - 1] == Without(old(Keys()), index) && objects[..count - 1] == Without(old(Objects()), index)
    {
      hide Shifted;
      ghost var keysWere, objectsWere := keys[..], objects[..];
      ShiftNone(keysWere, index, count);
      ShiftNone(objectsWere, index, count);
      var i := index;
      while i < count
        invariant index <= i <= count
        invariant Shifted(keysWere, keys[..], index, i, count) && Shifted(objectsWere, objects[..], index, i, count)
      {
        ghost var k, o := keys[..], objects[..];
        ShiftOne(keysWere, k, index, i, count);
        ShiftOne(objectsWere, o, index, i, count);
        if i + 1 < count {
          keys[i] := keys[i + 1];
          objects[i] := objects[i + 1];
          assert keys[..] == k[i := k[i + 1]] && objects[..] == o[i := o[i + 1]];
        }
        i := i + 1;
      }
      ShiftedAll(keysWere, keys[..], index, count);
      ShiftedAll(objectsWere, objects[..], index, count);
    }
  }

  /** The entries from index to i have moved one place down. */
  ghost predicate Shifted<T>(was: seq<T>, now: seq<T>, index: int, i: int, count: int) {
    && 0 <= index <= i <= count <= |was| == |now|
    && (forall j | 0 <= j < index :: now[j] == was[j])
    && (forall j | index <= j < i && j + 1 < count :: now[j] == was[j + 1])
    && (forall j | i <= j < count :: now[j] == was[j])
  }

  lemma ShiftNone<T>(was: seq<T>, index: nat, count: nat)
    requires index < count <= |was|
    ensures Shifted(was, was, index, index, count)
  {
  }

  lemma ShiftOne<T>(was: seq<T>, now: seq<T>, index: int, i: int, count: int)
    requires Shifted(was, now, index, i, count) && i < count && |was| == |now|
    ensures Shifted(was, if i + 1 < count then now[i := now[i + 1]] else now, index, i + 1, count)
  {
  }

  lemma ShiftedAll<T>(was: seq<T>, now: seq<T>, index: nat, count: nat)
    requires index < count && Shifted(was, now, index, count, count)
    ensures now[..count - 1] == Without(was[..count], index)
  {
  }
}
