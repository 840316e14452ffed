// The slots of dotNetRDF's hash table (dotNetRdf/Common/HashSlot.cs): three
// small collections behind the same interface, backed by a List<T>
// (ListSlot), a LinkedList<T> (CompactSlot) and a HashSet<T> (SetSlot).
// List and linked-list slots keep duplicates in insertion order; the set
// slot keeps each value once. Element equality is Dafny's ==.

module HashSlots {
  import opened Wrappers

  /** The position of the first occurrence of a present value. */
  function FirstIndex<T(==)>(s: seq<T>, x: T): (i: nat)
    requires x in s
    ensures i < |s| && s[i] == x && x !in s[..i]
  {
    if s[0] == x then 0
    else
      var i := FirstIndex(s[1..], x);
      assert s[..i + 1] == [s[0]] + s[1..][..i];
      i + 1
  }

  /** List<T>.Remove and LinkedList<T>.Remove: the first occurrence goes. */
  function RemoveFirst<T(==)>(s: seq<T>, x: T): (r: seq<T>)
    ensures x !in s ==> r == s
    ensures x in s ==> r == s[..FirstIndex(s, x)] + s[FirstIndex(s, x) + 1..]
  {
    if x in s then s[..FirstIndex(s, x)] + s[FirstIndex(s, x) + 1..] else s
  }

  /** Removing takes exactly one copy of a present value out of the bag of
      values, and nothing otherwise. */
  lemma RemoveFirstBag<T>(s: seq<T>, x: T)
    ensures multiset(RemoveFirst(s, x)) == multiset(s) - multiset{x}
    ensures |RemoveFirst(s, x)| == if x in s then |s| - 1 else |s|
  {
    if x in s {
      var i := FirstIndex(s, x);
      assert s == s[..i] + [x] + s[i + 1..];
    }
  }

  /** Removing a newly added value that was not there before undoes the Add. */
  lemma RemoveUndoesAdd<T>(s: seq<T>, x: T)
    requires x !in s
    ensures RemoveFirst(s + [x], x) == s
  {
    var t := s + [x];
    var i := FirstIndex(t, x);
    assert forall j :: 0 <= j < |s| ==> t[j] == s[j];
    assert i == |s|;
    assert t[..i] == s;
  }

  /** A slot over a List<T>. */
  class ListSlot<T(==)> {
    var values: seq<T>

    constructor(value: T)
      ensures values == [value]
    {
      values := [value];
    }

    /** An empty slot with room for capacity values (List's constructor
        refuses a negative capacity). */
    constructor WithCapacity(capacity: int)
      requires capacity >= 0
      ensures values == []
    {
      values := [];
    }

    /** A slot holding the value; the capacity only sizes the list, and one
        below 1 is replaced by the default. */
    constructor WithValueAndCapacity(value: T, capacity: int)
      ensures values == [value]
    {
      values := [value];
    }

    method Clear()
      modifies this
      ensures values == [] && Count() == 0
    {
      values := [];
    }

    function Contains(item: T): (b: bool)
      reads this
      ensures b <==> exists i :: 0 <= i < |values| && values[i] == item
    {
      item in values
    }

    function Count(): nat
      reads this
    {
      |values|
    }

    function IsReadOnly(): (b: bool)
      ensures !b
    {
      false
    }

    /** The values go to the array from arrayIndex on, in order, one by one:
        an index out of the array's bounds stops the copy with
        IndexOutOfRange, after the cells before it are written. */
    method CopyTo(a: array<T>, arrayIndex: int) returns (r: Result<()>)
      modifies a
      ensures r.Ok? <==> |values| == 0 || (0 <= arrayIndex && arrayIndex + |values| <= a.Length)
      ensures r.Err? ==> r.error == IndexOutOfRange
      ensures arrayIndex < 0 ==> a[..] == old(a[..])
      ensures arrayIndex >= 0 ==> forall k :: 0 <= k < a.Length ==>
        a[k] == if arrayIndex <= k < arrayIndex + |values| then values[k - arrayIndex] else old(a[k])
    {
      var i := arrayIndex;
      var n := 0;
      while n < |values|
        invariant 0 <= n <= |values| && i == arrayIndex + n
        invariant n > 0 ==> 0 <= arrayIndex && arrayIndex + n <= a.Length
        invariant forall k :: 0 <= k < a.Length ==>
          a[k] == if arrayIndex <= k < arrayIndex + n then values[k - arrayIndex] else old(a[k])
      {
        if i < 0 || i >= a.Length {
          return Err(IndexOutOfRange);
        }
        a[i] := values[n];
        i := i + 1;
        n := n + 1;
      }
      r := Ok(());
    }

    method Remove(item: T) returns (found: bool)
      modifies this
      ensures found <==> item in old(values)
      ensures values == RemoveFirst(old(values), item)
    {
      found := item in values;
      values := RemoveFirst(values, item);
    }

    method Add(item: T)
      modifies this
      ensures values == old(values) + [item] && Count() == old(Count()) + 1
    {
      values := values + [item];
    }
  }

  /** A slot over a LinkedList<T>. */
  class CompactSlot<T(==)> {
    var values: seq<T>

    constructor()
      ensures values == []
    {
      values := [];
    }

    constructor WithValue(value: T)
      ensures values == [value]
    {
      values := [value];
    }

    method Add(item: T)
      modifies this
      ensures values == old(values) + [item] && Count() == old(Count()) + 1
    {
      values := values + [item];
    }

    method Clear()
      modifies this
      ensures values == [] && Count() == 0
    {
      values := [];
    }

    function Contains(item: T): (b: bool)
      reads this
      ensures b <==> exists i :: 0 <= i < |values| && values[i] == item
    {
      item in values
    }

    /** LinkedList<T>.CopyTo checks first and writes nothing on failure: a
        negative index or one past the array's end is out of range, and too
        little room after the index is an invalid argument. */
    method CopyTo(a: array<T>, arrayIndex: int) returns (r: Result<()>)
      modifies a
      ensures r.Ok? <==> 0 <= arrayIndex && arrayIndex + |values| <= a.Length
      ensures (arrayIndex < 0 || arrayIndex > a.Length) ==> r == Err(ArgumentOutOfRange)
      ensures 0 <= arrayIndex <= a.Length && arrayIndex + |values| > a.Length ==> r.Err? && r.error.InvalidArgument?
      ensures r.Err? ==> a[..] == old(a[..])
      ensures r.Ok? ==> a[..] == old(a[..arrayIndex]) + values + old(a[arrayIndex + |values|..])
    {
      if arrayIndex < 0 || arrayIndex > a.Length {
        return Err(ArgumentOutOfRange);
      }
      if a.Length - arrayIndex < |values| {
        return Err(InvalidArgument("insufficient space"));
      }
      var n := 0;
      while n < |values|
        invariant 0 <= n <= |values|
        invariant a[..] == old(a[..arrayIndex]) + values[..n] + old(a[arrayIndex + n..])
      {
        a[arrayIndex + n] := values[n];
        n := n + 1;
        assert values[..n] == values[..n - 1] + [values[n - 1]];
      }
      assert values[..n] == values;
      r := Ok(());
    }

    function Count(): nat
      reads this
    {
      |values|
    }

    function IsReadOnly(): (b: bool)
      ensures !b
    {
      false
    }

    method Remove(item: T) returns (found: bool)
      modifies this
      ensures found <==> item in old(values)
      ensures values == RemoveFirst(old(values), item)
    {
      found := item in values;
      values := RemoveFirst(values, item);
    }
  }

  /** A slot over a HashSet<T>. */
  class SetSlot<T(==)> {
    var values: set<T>

    constructor()
      ensures values == {}
    {
      values := {};
    }

    constructor WithValue(value: T)
      ensures values == {value}
    {
      values := {value};
    }

    /** Adding a value already present changes nothing. */
    method Add(item: T)
      modifies this
      ensures values == old(values) + {item}
      ensures item in old(values) ==> values == old(values) && Count() == old(Count())
      ensures item !in old(values) ==> Count() == old(Count()) + 1
    {
      values := values + {item};
    }

    method Clear()
      modifies this
      ensures values == {} && Count() == 0
    {
      values := {};
    }

    function Contains(item: T): bool
      reads this
    {
      item in values
    }

    /** HashSet<T>.CopyTo checks first and writes nothing on failure; the
        values then fill the cells from arrayIndex in an order the set
        chooses. */
    method CopyTo(a: array<T>, arrayIndex: int) returns (r: Result<()>)
      modifies a
      ensures r.Ok? <==> 0 <= arrayIndex && arrayIndex + |values| <= a.Length
      ensures arrayIndex < 0 ==> r == Err(ArgumentOutOfRange)
      ensures arrayIndex >= 0 && arrayIndex + |values| > a.Length ==> r.Err? && r.error.InvalidArgument?
      ensures r.Err? ==> a[..] == old(a[..])
      ensures r.Ok? ==>
        a[..arrayIndex] == old(a[..arrayIndex]) &&
        a[arrayIndex + |values|..] == old(a[arrayIndex + |values|..]) &&
        multiset(a[arrayIndex..arrayIndex + |values|]) == multiset(values)
    {
      if arrayIndex < 0 {
        return Err(ArgumentOutOfRange);
      }
      if arrayIndex > a.Length || |values| > a.Length - arrayIndex {
        return Err(InvalidArgument("array plus offset too small"));
      }
      WriteValues(a, arrayIndex);
      r := Ok(());
    }

    /** The successful part of CopyTo: the values, one per cell, from
        arrayIndex on. */
    method WriteValues(a: array<T>, arrayIndex: nat)
      requires arrayIndex + |values| <= a.Length
      modifies a
      ensures a[..arrayIndex] == old(a[..arrayIndex])
      ensures a[arrayIndex + |values|..] == old(a[arrayIndex + |values|..])
      ensures multiset(a[arrayIndex..arrayIndex + |values|]) == multiset(values)
    {
      var rest := values;
      var n := 0;
      ghost var written: seq<T> := [];
      while rest != {}
        invariant n + |rest| == |values| && rest <= values && |written| == n
        invariant forall i :: 0 <= i < a.Length && !(arrayIndex <= i < arrayIndex + n) ==> a[i] == old(a[i])
        invariant forall k :: 0 <= k < n ==> a[arrayIndex + k] == written[k]
        invariant multiset(written) + multiset(rest) == multiset(values)
        decreases |rest|
      {
        var x :| x in rest;
        a[arrayIndex + n] := x;
        written := written + [x];
        rest := rest - {x};
        n := n + 1;
      }
      assert a[arrayIndex..arrayIndex + |values|] == written;
    }

    function Count(): nat
      reads this
    {
      |values|
    }

    function IsReadOnly(): (b: bool)
      ensures !b
    {
      false
    }

    method Remove(item: T) returns (found: bool)
      modifies this
      ensures found <==> item in old(values)
      ensures values == old(values) - {item}
    {
      found := item in values;
      values := values - {item};
    }
  }
}
