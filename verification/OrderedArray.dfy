/** The array that keeps its items in order by shifting them in place. */
module OrderedArrays {
  import opened Base

  /** The first place whose item is not less than x. */
  function InsertPlace<T>(s: seq<T>, x: T, lessThan: (T, T) -> bool): (p: nat)
    ensures p <= |s|
    ensures forall i :: 0 <= i < p ==> lessThan(s[i], x)
    ensures p < |s| ==> !lessThan(s[p], x)
  {
    if s == [] || !lessThan(s[0], x) then 0 else 1 + InsertPlace(s[1..], x, lessThan)
  }

  function Inserted<T>(s: seq<T>, x: T, lessThan: (T, T) -> bool): seq<T> {
    var p := InsertPlace(s, x, lessThan);
    s[..p] + [x] + s[p..]
  }

  function Removed<T>(s: seq<T>, i: nat): seq<T>
    requires i < |s|
  {
    s[..i] + s[i + 1..]
  }

  /** No item is less than one in front of it. */
  ghost predicate Sorted<T>(s: seq<T>, lessThan: (T, T) -> bool) {
    forall i, j :: 0 <= i < j < |s| ==> !lessThan(s[j], s[i])
  }

  /** A strict weak order: what the array needs of its comparison. */
  ghost predicate WeakOrder<T(!new)>(lessThan: (T, T) -> bool) {
    && (forall a, b :: lessThan(a, b) ==> !lessThan(b, a))
    && (forall a, b, c :: !lessThan(a, b) && !lessThan(b, c) ==> !lessThan(a, c))
  }

  /** Insertion keeps the order, and adds x and nothing else. */
  lemma InsertedOk<T(!new)>(s: seq<T>, x: T, lessThan: (T, T) -> bool)
    ensures multiset(Inserted(s, x, lessThan)) == multiset(s) + multiset{x}
    ensures WeakOrder(lessThan) && Sorted(s, lessThan) ==> Sorted(Inserted(s, x, lessThan), lessThan)
  {
    var p := InsertPlace(s, x, lessThan);
    assert s == s[..p] + s[p..];
    if WeakOrder(lessThan) && Sorted(s, lessThan) {
      InsertedSorted(s, x, lessThan);
    }
  }

  /** The item is at the first place whose item was not less, and taking it out again undoes the insertion. */
  lemma RemoveUndoesInsert<T>(s: seq<T>, x: T, lessThan: (T, T) -> bool, p: nat)
    requires p <= |s| && (forall i :: 0 <= i < p ==> lessThan(s[i], x)) && (p < |s| ==> !lessThan(s[p], x))
    ensures |Inserted(s, x, lessThan)| == |s| + 1
    ensures Inserted(s, x, lessThan)[p] == x && Removed(Inserted(s, x, lessThan), p) == s
  {
    PlaceIs(s, x, lessThan, p);
  }

  lemma InsertedSorted<T(!new)>(s: seq<T>, x: T, lessThan: (T, T) -> bool)
    requires WeakOrder(lessThan) && Sorted(s, lessThan)
    ensures Sorted(Inserted(s, x, lessThan), lessThan)
  {
    var p := InsertPlace(s, x, lessThan);
    var r := Inserted(s, x, lessThan);
    assert forall k :: 0 <= k < |r| ==> r[k] == if k < p then s[k] else if k == p then x else s[k - 1];
    forall i, j | 0 <= i < j < |r| ensures !lessThan(r[j], r[i]) {
      if i == p {
        assert j - 1 == p || !lessThan(s[j - 1], s[p]);
      }
    }
  }

  lemma RemovedOk<T>(s: seq<T>, i: nat, lessThan: (T, T) -> bool)
    requires i < |s|
    ensures multiset(Removed(s, i)) == multiset(s) - multiset{s[i]}
    ensures Sorted(s, lessThan) ==> Sorted(Removed(s, i), lessThan)
    ensures |Removed(s, i)| == |s| - 1
    ensures forall k :: 0 <= k < |s| - 1 ==> Removed(s, i)[k] == s[if k < i then k else k + 1]
  {
    RemovedMultiset(s, i);
    var r := Removed(s, i);
    assert forall k :: 0 <= k < |r| ==> r[k] == if k < i then s[k] else s[k + 1];
  }

  lemma RemovedMultiset<T>(s: seq<T>, i: nat)
    requires i < |s|
    ensures multiset(Removed(s, i)) == multiset(s) - multiset{s[i]}
  {
    assert s == s[..i] + ([s[i]] + s[i + 1..]);
  }

  lemma UpdatedMultiset<T>(s: seq<T>, i: nat, x: T)
    requires i < |s|
    ensures multiset(s[i := x]) == multiset(s) - multiset{s[i]} + multiset{x}
  {
  }

  class OrderedArray<T(0)> {
    /** One slot more than maxSize: removal reads the slot behind the last item. */
    const slots: array<T>
    const maxSize: nat
    const lessThan: (T, T) -> bool
    var size: nat

    ghost predicate Valid()
      reads this
    {
      size <= maxSize && slots.Length == maxSize + 1
    }

    ghost function Contents(): seq<T>
      requires Valid()
      reads this, slots
    {
      slots[..size]
    }

    constructor (maxSize: nat, lessThan: (T, T) -> bool)
      requires maxSize > 0
      ensures Valid() && fresh(slots) && Contents() == []
      ensures this.maxSize == maxSize && this.lessThan == lessThan
    {
      slots := new T[maxSize + 1];
      this.maxSize := maxSize;
      this.lessThan := lessThan;
      size := 0;
    }

    method Insert(item: T) returns (ok: bool)
      requires Valid()
      modifies this`size, slots
      ensures Valid() && ok == (old(size) < maxSize)
      ensures Contents() == if ok then Inserted(old(Contents()), item, lessThan) else old(Contents())
    {
      if size >= maxSize {
        return false;
      }
      ghost var s := Contents();
      var it := 0;
      while it < size && lessThan(slots[it], item)
        invariant 0 <= it <= size && size == |s|
        invariant forall k :: 0 <= k < it ==> lessThan(s[k], item)
      {
        it := it + 1;
      }
      PlaceIs(s, item, lessThan, it);
      ghost var p := it;
      if it == size {
        slots[size] := item;
        size := size + 1;
      } else {
        var save := slots[it];
        slots[it] := item;
        while it < size
          invariant p <= it <= size && size == |s|
          invariant forall k :: 0 <= k < p ==> slots[k] == s[k]
          invariant slots[p] == item
          invariant forall k :: p < k <= it ==> slots[k] == s[k - 1]
          invariant forall k :: it < k < size ==> slots[k] == s[k]
          invariant it < size ==> save == s[it]
        {
          it := it + 1;
          var swap := slots[it];
          slots[it] := save;
          save := swap;
        }
        size := size + 1;
      }
      OpenedUp(s, slots[..size], p, item);
      return true;
    }

    static lemma OpenedUp(s: seq<T>, r: seq<T>, p: nat, item: T)
      requires p <= |s| && |r| == |s| + 1 && r[p] == item
      requires forall k :: 0 <= k < p ==> r[k] == s[k]
      requires forall k :: p < k < |r| ==> r[k] == s[k - 1]
      ensures r == s[..p] + [item] + s[p..]
    {
    }

    /** Assignment through operator[]: the order is not restored. */
    method Set(index: nat, item: T)
      requires Valid() && index < size
      modifies slots
      ensures Valid() && Contents() == old(Contents())[index := item]
    {
      slots[index] := item;
    }

    method Remove(index: nat)
      requires Valid() && index < size
      modifies this`size, slots
      ensures Valid() && Contents() == Removed(old(Contents()), index)
    {
      ghost var s := Contents();
      var i := index;
      while i < size
        invariant index <= i <= size && size == |s|
        invariant forall k :: index <= k < i && k + 1 < size ==> slots[k] == s[k + 1]
        invariant forall k :: 0 <= k < size && (k < index || i <= k) ==> slots[k] == s[k]
      {
        slots[i] := slots[i + 1];
        i := i + 1;
      }
      size := size - 1;
      assert Contents() == Removed(s, index);
    }
  }

  lemma {:induction false} PlaceIs<T>(s: seq<T>, x: T, lessThan: (T, T) -> bool, p: nat)
    requires p <= |s| && forall i :: 0 <= i < p ==> lessThan(s[i], x)
    requires p < |s| ==> !lessThan(s[p], x)
    ensures InsertPlace(s, x, lessThan) == p
  {
  }
}
