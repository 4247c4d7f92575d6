// SBLShufflingList: a list of weighted entries, and the iterators over it.
// The iterators hold the list itself (not a copy): they read its live size
// and remove through it. The weighted shuffle is not part of this model.
module ShufflingLists {
  import opened Wrappers

  datatype WeightedEntry<T> = WeightedEntry(element: T, weight: int)

  /** The objects of the entries, in list order. */
  function Objects<T>(entries: seq<WeightedEntry<T>>): (r: seq<T>)
    ensures |r| == |entries| && forall i :: 0 <= i < |entries| ==> r[i] == entries[i].element
  {
    seq(|entries|, i requires 0 <= i < |entries| => entries[i].element)
  }

  /** `List.remove(int)`: the list without its i-th element, the rest shifted down. */
  function RemoveAt<T>(s: seq<T>, i: int): (r: seq<T>)
    requires 0 <= i < |s|
    ensures |r| == |s| - 1
    ensures forall j :: 0 <= j < i ==> r[j] == s[j]
    ensures forall j :: i <= j < |r| ==> r[j] == s[j + 1]
    ensures multiset(r) + multiset{s[i]} == multiset(s)
  {
    assert s == s[..i] + [s[i]] + s[i + 1..];
    s[..i] + s[i + 1..]
  }

  /** Entries built from (object, weight) pairs, in order. */
  function EntriesOf<T>(pairs: seq<(T, int)>): (r: seq<WeightedEntry<T>>)
    ensures |r| == |pairs|
    ensures forall i :: 0 <= i < |pairs| ==> r[i] == WeightedEntry(pairs[i].0, pairs[i].1)
  {
    seq(|pairs|, i requires 0 <= i < |pairs| => WeightedEntry(pairs[i].0, pairs[i].1))
  }

  class ShufflingList<T> {
    var entries: seq<WeightedEntry<T>>

    /** The no-argument constructor: an empty list. */
    constructor ()
      ensures entries == []
    {
      entries := [];
    }

    /** The varargs constructor: one entry per pair, in the order given. */
    constructor FromPairs(pairs: seq<(T, int)>)
      ensures entries == EntriesOf(pairs)
    {
      var built := [];
      var i := 0;
      while i < |pairs|
        invariant 0 <= i <= |pairs| && built == EntriesOf(pairs)[..i]
      {
        built := built + [WeightedEntry(pairs[i].0, pairs[i].1)];
        i := i + 1;
      }
      entries := built;
    }

    /** add: appends one entry and reports success. */
    method Add(entry: T, weight: int) returns (added: bool)
      modifies this
      ensures added && entries == old(entries) + [WeightedEntry(entry, weight)]
    {
      entries := entries + [WeightedEntry(entry, weight)];
      added := true;
    }

    /** get: the object at an index, or IndexOutOfBoundsException outside the list. */
    function Get(index: int): (r: Result<T>)
      reads this
      ensures 0 <= index < |entries| <==> r.Ok?
      ensures r.Ok? ==> r.value == Objects(entries)[index]
      ensures r.Throws? ==> r.exception == IndexOutOfBounds
    {
      if 0 <= index < |entries| then Ok(entries[index].element) else Throws(IndexOutOfBounds)
    }

    /** stream / forEach: the objects in list order. */
    function Contents(): (r: seq<T>)
      reads this
      ensures |r| == |entries| && forall i :: 0 <= i < |r| ==> Get(i) == Ok(r[i])
    {
      Objects(entries)
    }

    /** iterator (the index-based iterator): at the start of the list. */
    method Iterator() returns (it: IndexBasedIterator<T>)
      ensures fresh(it) && it.list == this && it.pos == 0 && it.lastReturned == 0
    {
      it := new IndexBasedIterator(this);
    }

    /** iterator with lastReturned starting at -1, as its documentation says. */
    method IteratorCorrected() returns (it: IndexBasedIterator<T>)
      ensures fresh(it) && it.list == this && it.pos == 0 && it.lastReturned == -1 && it.Valid()
    {
      it := new IndexBasedIterator.Unstarted(this);
    }

    /** iterator (the list-iterator edition): at the start of the list, nothing returned yet. */
    method ListIterator() returns (it: ListIterator<T>)
      ensures fresh(it) && it.list == this && it.pointer == 0 && it.last == -1 && it.Valid()
    {
      it := new ListIterator(this);
    }
  }

  /**
   * AbstractIndexBasedIterator with the list's get/remove/size plugged in.
   * pos is the index the next call to next returns; lastReturned is the
   * index a call to remove deletes, or -1 for none.
   */
  class IndexBasedIterator<T> {
    const list: ShufflingList<T>
    const minPos: int
    var pos: nat
    var lastReturned: int

    /**
     * What the field documentation promises: the position lies in the list,
     * and lastReturned is -1 or the index just passed over.
     */
    ghost predicate Valid()
      reads this, list
    {
      minPos == 0 && pos <= |list.entries| && (lastReturned == -1 || lastReturned == pos - 1)
    }

    /** new AbstractIndexBasedIterator(0, 0): lastReturned is left at Java's default, 0. */
    constructor (list: ShufflingList<T>)
      ensures this.list == list && minPos == 0 && pos == 0 && lastReturned == 0
    {
      this.list := list;
      minPos := 0;
      pos := 0;
      lastReturned := 0;
    }

    /** The same iterator with lastReturned initialised to -1. */
    constructor Unstarted(list: ShufflingList<T>)
      ensures this.list == list && minPos == 0 && pos == 0 && lastReturned == -1 && Valid()
    {
      this.list := list;
      minPos := 0;
      pos := 0;
      lastReturned := -1;
    }

    function HasNext(): (b: bool)
      reads this, list
      ensures b <==> pos < |list.entries|
      ensures Valid() ==> (b <==> pos != |list.entries|)
    {
      pos < |list.entries|
    }

    /** next: the element at pos, which becomes lastReturned; NoSuchElementException at the end. */
    method Next() returns (r: Result<T>)
      modifies this
      ensures old(pos) < |list.entries| ==>
        r == Ok(list.entries[old(pos)].element) && lastReturned == old(pos) && pos == old(pos) + 1
      ensures |list.entries| <= old(pos) ==>
        r == Throws(NoSuchElement) && pos == old(pos) && lastReturned == old(lastReturned)
      ensures old(Valid()) ==> Valid()
    {
      if !HasNext() {
        return Throws(NoSuchElement);
      }
      lastReturned := pos;
      pos := pos + 1;
      r := Ok(list.entries[lastReturned].element);
    }

    /**
     * remove: IllegalStateException when nothing is to be removed; otherwise
     * deletes lastReturned from the list, steps pos back over it when it was
     * before pos, and forgets lastReturned.
     */
    method Remove() returns (r: Result<()>)
      modifies this, list
      ensures old(lastReturned) == -1 ==>
        r == Throws(IllegalState) && unchanged(this) && unchanged(list)
      ensures old(lastReturned) != -1 && !(0 <= old(lastReturned) < old(|list.entries|)) ==>
        r == Throws(IndexOutOfBounds) && unchanged(this) && unchanged(list)
      ensures old(lastReturned) != -1 && 0 <= old(lastReturned) < old(|list.entries|) ==>
        r == Ok(()) && list.entries == RemoveAt(old(list.entries), old(lastReturned)) &&
        pos == (if old(lastReturned) < old(pos) then old(pos) - 1 else old(pos)) && lastReturned == -1
      ensures old(Valid()) ==> Valid() && (r.Ok? <==> old(lastReturned) != -1)
    {
      if lastReturned == -1 {
        return Throws(IllegalState);
      }
      if !(0 <= lastReturned < |list.entries|) {
        return Throws(IndexOutOfBounds);
      }
      list.entries := RemoveAt(list.entries, lastReturned);
      if lastReturned < pos {
        pos := pos - 1;
      }
      lastReturned := -1;
      r := Ok(());
    }

    /** forEachRemaining: hands every remaining element to the action, in order. */
    method ForEachRemaining() returns (visited: seq<T>)
      modifies this
      ensures old(pos) < |list.entries| ==>
        visited == Objects(list.entries)[old(pos)..] && pos == |list.entries| &&
        lastReturned == |list.entries| - 1
      ensures |list.entries| <= old(pos) ==>
        visited == [] && pos == old(pos) && lastReturned == old(lastReturned)
      ensures old(Valid()) ==> Valid()
    {
      visited := [];
      while pos < |list.entries|
        invariant old(pos) <= pos
        invariant pos == old(pos) ==> visited == [] && lastReturned == old(lastReturned)
        invariant pos != old(pos) ==>
          pos <= |list.entries| && lastReturned == pos - 1 &&
          visited == Objects(list.entries)[old(pos)..pos]
        decreases |list.entries| - pos
      {
        lastReturned := pos;
        pos := pos + 1;
        visited := visited + [list.entries[lastReturned].element];
      }
    }

    /**
     * skip: IllegalArgumentException for a negative count; otherwise moves
     * forward by n, stopping at the end of the list, and reports how far it moved.
     */
    method Skip(n: int) returns (r: Result<int>)
      modifies this
      ensures n < 0 ==> r == Throws(IllegalArgument) && pos == old(pos) && lastReturned == old(lastReturned)
      ensures 0 <= n ==>
        r.Ok? && r.value == pos - old(pos) && lastReturned == pos - 1 &&
        pos == (if old(pos) + n < |list.entries| then old(pos) + n else |list.entries|)
      ensures old(Valid()) ==> Valid() && (r.Ok? ==> 0 <= r.value <= n)
    {
      if n < 0 {
        return Throws(IllegalArgument);
      }
      var max := |list.entries|;
      var remaining := max - pos;
      var moved := n;
      if moved < remaining {
        pos := pos + moved;
      } else {
        moved := remaining;
        pos := max;
      }
      lastReturned := pos - 1;
      r := Ok(moved);
    }
  }

  /**
   * The list-iterator edition: pointer is the index next returns; last is the
   * index remove deletes, or -1 for none.
   */
  class ListIterator<T> {
    const list: ShufflingList<T>
    var pointer: int
    var last: int

    /** The pointer stays within the list, and last is -1 or next to the pointer. */
    ghost predicate Valid()
      reads this, list
    {
      0 <= pointer <= |list.entries| && (last == -1 || last == pointer - 1 || last == pointer)
    }

    /** The iterator's field initialisers: pointer 0, last -1. */
    constructor (list: ShufflingList<T>)
      ensures this.list == list && pointer == 0 && last == -1 && Valid()
    {
      this.list := list;
      pointer := 0;
      last := -1;
    }

    function HasNext(): (b: bool)
      reads this, list
      ensures b <==> pointer < |list.entries|
      ensures Valid() ==> (b <==> pointer != |list.entries|)
    {
      pointer < |list.entries|
    }

    function HasPrevious(): (b: bool)
      reads this
      ensures b <==> 0 < pointer
    {
      0 < pointer
    }

    /** nextIndex: what next would return the element at. */
    function NextIndex(): (i: int)
      reads this, list
      ensures i == pointer && (Valid() ==> 0 <= i <= |list.entries|)
    {
      pointer
    }

    /** previousIndex: what previous would return the element at. */
    function PreviousIndex(): (i: int)
      reads this, list
      ensures i == pointer - 1 && (Valid() ==> -1 <= i < |list.entries|)
    {
      pointer - 1
    }

    /**
     * next: NoSuchElementException at the end; otherwise last and pointer
     * step forward, and the element at last is returned (a pointer before the
     * start makes the list throw IndexOutOfBoundsException after they moved).
     */
    method Next() returns (r: Result<T>)
      modifies this
      ensures |list.entries| <= old(pointer) ==> r == Throws(NoSuchElement) && unchanged(this)
      ensures old(pointer) < |list.entries| ==>
        last == old(pointer) && pointer == old(pointer) + 1 &&
        r == (if 0 <= old(pointer) then Ok(list.entries[old(pointer)].element) else Throws(IndexOutOfBounds))
      ensures old(Valid()) ==> Valid() && (r.Ok? <==> old(pointer) < |list.entries|)
    {
      if !HasNext() {
        return Throws(NoSuchElement);
      }
      last := pointer;
      pointer := pointer + 1;
      r := if 0 <= last then Ok(list.entries[last].element) else Throws(IndexOutOfBounds);
    }

    /**
     * previous: NoSuchElementException at the start; otherwise the pointer
     * steps back, becomes last, and the element there is returned.
     */
    method Previous() returns (r: Result<T>)
      modifies this
      ensures old(pointer) <= 0 ==> r == Throws(NoSuchElement) && unchanged(this)
      ensures 0 < old(pointer) ==>
        pointer == old(pointer) - 1 && last == pointer &&
        r == (if pointer < |list.entries| then Ok(list.entries[pointer].element) else Throws(IndexOutOfBounds))
      ensures old(Valid()) ==> Valid() && (r.Ok? <==> 0 < old(pointer))
    {
      if !HasPrevious() {
        return Throws(NoSuchElement);
      }
      pointer := pointer - 1;
      last := pointer;
      r := if pointer < |list.entries| then Ok(list.entries[pointer].element) else Throws(IndexOutOfBounds);
    }

    /**
     * remove: IllegalStateException when nothing is to be removed; otherwise
     * deletes index last, steps the pointer back over it when it was before
     * the pointer, and forgets last.
     */
    method Remove() returns (r: Result<()>)
      modifies this, list
      ensures old(last) == -1 ==> r == Throws(IllegalState) && unchanged(this) && unchanged(list)
      ensures old(last) != -1 && !(0 <= old(last) < old(|list.entries|)) ==>
        r == Throws(IndexOutOfBounds) && unchanged(this) && unchanged(list)
      ensures old(last) != -1 && 0 <= old(last) < old(|list.entries|) ==>
        r == Ok(()) && list.entries == RemoveAt(old(list.entries), old(last)) &&
        pointer == (if old(last) < old(pointer) then old(pointer) - 1 else old(pointer)) && last == -1
      ensures old(Valid()) ==> Valid()
    {
      if last == -1 {
        return Throws(IllegalState);
      }
      if !(0 <= last < |list.entries|) {
        return Throws(IndexOutOfBounds);
      }
      list.entries := RemoveAt(list.entries, last);
      if last < pointer {
        pointer := pointer - 1;
      }
      last := -1;
      r := Ok(());
    }

    /**
     * forEachRemaining: hands every remaining element to the consumer, in
     * order; a pointer before the start fails on the first element.
     */
    method ForEachRemaining() returns (r: Result<seq<T>>)
      modifies this
      ensures |list.entries| <= old(pointer) ==> r == Ok([]) && pointer == old(pointer) && last == old(last)
      ensures 0 <= old(pointer) < |list.entries| ==>
        r == Ok(Objects(list.entries)[old(pointer)..]) && pointer == |list.entries| &&
        last == |list.entries| - 1
      ensures old(pointer) < 0 && old(pointer) < |list.entries| ==>
        r == Throws(IndexOutOfBounds) && last == old(pointer) && pointer == old(pointer) + 1
      ensures old(Valid()) ==> Valid() && r.Ok?
    {
      var visited := [];
      while pointer < |list.entries|
        invariant old(pointer) <= pointer
        invariant pointer == old(pointer) ==> visited == [] && last == old(last)
        invariant pointer != old(pointer) ==>
          0 <= old(pointer) < pointer <= |list.entries| && last == pointer - 1 &&
          visited == Objects(list.entries)[old(pointer)..pointer]
        decreases |list.entries| - pointer
      {
        last := pointer;
        pointer := pointer + 1;
        if last < 0 {
          return Throws(IndexOutOfBounds);
        }
        visited := visited + [list.entries[last].element];
      }
      assert pointer != old(pointer) ==> Objects(list.entries)[old(pointer)..pointer] == Objects(list.entries)[old(pointer)..];
      r := Ok(visited);
    }

    /**
     * skip: IllegalArgumentException for a negative count; otherwise moves
     * forward by n, stopping at the end of the list, and reports how far it moved.
     */
    method Skip(n: int) returns (r: Result<int>)
      modifies this
      ensures n < 0 ==> r == Throws(IllegalArgument) && unchanged(this)
      ensures 0 <= n ==>
        r.Ok? && r.value == pointer - old(pointer) && last == pointer - 1 &&
        pointer == (if old(pointer) + n < |list.entries| then old(pointer) + n else |list.entries|)
      ensures old(Valid()) ==> Valid() && (r.Ok? ==> 0 <= r.value <= n)
    {
      if n < 0 {
        return Throws(IllegalArgument);
      }
      var remaining := |list.entries| - pointer;
      var moved := n;
      if moved < remaining {
        pointer := pointer + moved;
      } else {
        moved := remaining;
        pointer := |list.entries|;
      }
      last := pointer - 1;
      r := Ok(moved);
    }

    /**
     * back, as written: IllegalArgumentException for a negative count;
     * otherwise the count is clamped by the distance to the END of the list
     * (size - pointer), not by the distance back to its start.
     */
    method Back(n: int) returns (r: Result<int>)
      modifies this
      ensures n < 0 ==> r == Throws(IllegalArgument) && unchanged(this)
      ensures 0 <= n ==>
        var remaining := |list.entries| - old(pointer);
        last == pointer &&
        (n < remaining ==> pointer == old(pointer) - n && r == Ok(n)) &&
        (remaining <= n ==> pointer == 0 && r == Ok(remaining))
    {
      if n < 0 {
        return Throws(IllegalArgument);
      }
      var remaining := |list.entries| - pointer;
      var moved := n;
      if moved < remaining {
        pointer := pointer - moved;
      } else {
        moved := remaining;
        pointer := 0;
      }
      last := pointer;
      r := Ok(moved);
    }

    /**
     * back, clamped by the distance to the start: moves back by n, stopping
     * at the start of the list, and reports how far it moved.
     */
    method BackCorrected(n: int) returns (r: Result<int>)
      modifies this
      ensures n < 0 ==> r == Throws(IllegalArgument) && unchanged(this)
      ensures 0 <= n ==>
        r.Ok? && r.value == old(pointer) - pointer && last == pointer &&
        pointer == (if n < old(pointer) then old(pointer) - n else 0)
      ensures old(Valid()) ==> Valid() && (r.Ok? ==> 0 <= r.value <= n)
    {
      if n < 0 {
        return Throws(IllegalArgument);
      }
      var remaining := pointer;
      var moved := n;
      if moved < remaining {
        pointer := pointer - moved;
      } else {
        moved := remaining;
        pointer := 0;
      }
      last := pointer;
      r := Ok(moved);
    }
  }

  /** Calling next until hasNext is false yields the list's objects in order. */
  method IterateAll<T>(pairs: seq<(T, int)>) returns (visited: seq<T>)
    ensures visited == Objects(EntriesOf(pairs))
  {
    var list := new ShufflingList.FromPairs(pairs);
    var it := list.Iterator();
    visited := [];
    while it.HasNext()
      invariant list.entries == EntriesOf(pairs) && it.list == list
      invariant it.pos <= |list.entries| && visited == Objects(list.entries)[..it.pos]
      decreases |list.entries| - it.pos
    {
      var x := it.Next();
      visited := visited + [x.value];
    }
  }

  /** Helper for RemoveEverything: the objects are the first one, then those of the rest. */
  lemma ObjectsAfterRemovingFirst<T>(entries: seq<WeightedEntry<T>>)
    requires 0 < |entries|
    ensures Objects(entries) == [entries[0].element] + Objects(RemoveAt(entries, 0))
  {
  }

  /** Alternating next and remove deletes every entry, from the front. */
  method RemoveEverything<T>(pairs: seq<(T, int)>) returns (removed: seq<T>, left: seq<WeightedEntry<T>>)
    ensures removed == Objects(EntriesOf(pairs)) && left == []
  {
    var list := new ShufflingList.FromPairs(pairs);
    var it := list.IteratorCorrected();
    removed := [];
    while it.HasNext()
      invariant it.list == list && it.Valid() && it.pos == 0
      invariant Objects(EntriesOf(pairs)) == removed + Objects(list.entries)
      decreases |list.entries|
    {
      ghost var before := list.entries;
      var x := it.Next();
      removed := removed + [x.value];
      var ok := it.Remove();
      ObjectsAfterRemovingFirst(before);
    }
    left := list.entries;
  }

  /**
   * The index-based iterator as written: remove straight after creating it
   * deletes the first entry instead of throwing IllegalStateException.
   */
  method RemoveBeforeNextAsWritten<T>(a: T, b: T) returns (r: Result<()>, left: seq<T>)
    ensures r == Ok(()) && left == [b]
  {
    var list := new ShufflingList.FromPairs([(a, 1), (b, 1)]);
    var it := list.Iterator();
    r := it.Remove();
    left := list.Contents();
  }

  /** With lastReturned starting at -1, that remove is refused and the list is untouched. */
  method RemoveBeforeNextCorrected<T>(a: T, b: T) returns (r: Result<()>, left: seq<T>)
    ensures r == Throws(IllegalState) && left == [a, b]
  {
    var list := new ShufflingList.FromPairs([(a, 1), (b, 1)]);
    var it := list.IteratorCorrected();
    r := it.Remove();
    left := list.Contents();
  }

  /** Skipping to the end and calling previous until the start yields the objects in reverse. */
  method IterateBackward<T>(pairs: seq<(T, int)>) returns (visited: seq<T>)
    ensures |visited| == |pairs| && forall i :: 0 <= i < |pairs| ==> visited[i] == pairs[|pairs| - 1 - i].0
  {
    var list := new ShufflingList.FromPairs(pairs);
    var it := list.ListIterator();
    var moved := it.Skip(|pairs|);
    visited := [];
    while it.HasPrevious()
      invariant list.entries == EntriesOf(pairs) && it.list == list && it.Valid()
      invariant |visited| == |pairs| - it.pointer
      invariant forall i :: 0 <= i < |visited| ==> visited[i] == pairs[|pairs| - 1 - i].0
      decreases it.pointer
    {
      var x := it.Previous();
      visited := visited + [x.value];
    }
  }

  /**
   * back as written, five entries, pointer 1, back(3): the clamp lets the
   * pointer go to -2, and the following next fails inside the list.
   */
  method BackPastStartAsWritten<T>(x: T) returns (moved: Result<int>, pointer: int, following: Result<T>)
    ensures moved == Ok(3) && pointer == -2 && following == Throws(IndexOutOfBounds)
  {
    var list := new ShufflingList.FromPairs([(x, 1), (x, 1), (x, 1), (x, 1), (x, 1)]);
    var it := list.ListIterator();
    var skipped := it.Skip(1);
    moved := it.Back(3);
    pointer := it.pointer;
    following := it.Next();
  }

  /** The same calls with back clamped by the pointer: it stops at the start and next succeeds. */
  method BackPastStartCorrected<T>(x: T) returns (moved: Result<int>, pointer: int, following: Result<T>)
    ensures moved == Ok(1) && pointer == 0 && following == Ok(x)
  {
    var list := new ShufflingList.FromPairs([(x, 1), (x, 1), (x, 1), (x, 1), (x, 1)]);
    var it := list.ListIterator();
    var skipped := it.Skip(1);
    moved := it.BackCorrected(3);
    pointer := it.pointer;
    following := it.Next();
  }
}
